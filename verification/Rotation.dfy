/** In-place exchange of two adjacent blocks of an argument vector (src/bsd/getopt_long.c).

  The block [start, end) of non-options and the block [end, stop) of options are exchanged by
  following the cycles of the rotation.  Positions are counted from the start of the first block;
  n and p are the lengths of the two blocks, g their greatest common divisor.
 */
module Rotation {
  import opened Arith

  /** Euclid's algorithm, the recursion behind the loop of method ComputeGcd. */
  function Gcd(a: nat, b: nat): (g: nat)
    requires b > 0
    ensures 0 < g <= b
    decreases b
  {
    if a % b == 0 then b else Gcd(b, a % b)
  }

  method ComputeGcd(a0: nat, b0: nat) returns (g: nat)
    requires b0 > 0
    ensures g == Gcd(a0, b0)
  {
    var a, b := a0, b0;
    var c := a % b;
    while c != 0
      invariant b > 0 && c == a % b && Gcd(a, b) == Gcd(a0, b0)
      decreases c
    {
      a := b;
      b := c;
      c := a % b;
    }
    return b;
  }

  /** The result divides both arguments and is an integer combination of them, which makes it
      the greatest common divisor. */
  lemma {:induction false} GcdIsGreatestCommonDivisor(a: nat, b: nat) returns (qa: nat, qb: nat, x: int, y: int)
    requires b > 0
    ensures a == Gcd(a, b) * qa && b == Gcd(a, b) * qb
    ensures x * a + y * b == Gcd(a, b)
    decreases b
  {
    var q, c := a / b, a % b;
    assert a == q * b + c;
    if c == 0 {
      qa, qb, x, y := q, 1, 0, 1;
    } else {
      var qb', qc, x', y' := GcdIsGreatestCommonDivisor(b, c);
      qa, qb, x, y := q * qb' + qc, qb', y', x' - q * y';
      EuclidStep(a, b, c, q, Gcd(b, c), qb', qc, x', y');
    }
  }

  lemma EuclidStep(a: int, b: int, c: int, q: int, g: int, qb: int, qc: int, x: int, y: int)
    requires a == q * b + c && b == g * qb && c == g * qc && x * b + y * c == g
    ensures a == g * (q * qb + qc) && y * a + (x - q * y) * b == g
  {
    assert g * (q * qb + qc) == q * (g * qb) + g * qc;
    assert y * (q * b + c) + (x - q * y) * b == x * b + y * c;
  }

  /** Where the element at position r has to go. */
  function Next(n: nat, p: nat, r: nat): (r': nat)
    requires r < n + p
    ensures r' < n + p
  {
    if r >= n then r - n else r + p
  }

  /** The k-th position visited by cycle i, which starts at the i-th element of the second block. */
  function Pos(n: nat, p: nat, i: nat, k: nat): (r: nat)
    requires i < p
    ensures r < n + p
  {
    if k == 0 then n + i else Next(n, p, Pos(n, p, i, k - 1))
  }

  lemma PosClosedForm(n: nat, p: nat, i: nat, k: nat) returns (t: nat)
    requires i < p
    ensures Pos(n, p, i, k) == n + i + k * p - t * (n + p)
  {
    if k == 0 {
      t := 0;
    } else {
      var t' := PosClosedForm(n, p, i, k - 1);
      var wraps := Pos(n, p, i, k - 1) >= n;
      t := if wraps then t' + 1 else t';
      OneMore(k - 1, p);
      OneMore(t', n + p);
    }
  }

  /** Lengths of two blocks, factored by their greatest common divisor. */
  datatype Blocks = Blocks(g: nat, qn: nat, qp: nat, u: int, v: int) {
    ghost predicate For(n: nat, p: nat) {
      && g > 0 && qn > 0 && qp > 0
      && n == g * qn && p == g * qp
      && n + p == g * (qn + qp)
      && u * p == g + v * (n + p)
    }
  }

  lemma FactorBlocks(n: nat, p: nat) returns (b: Blocks)
    requires n > 0 && p > 0
    ensures b.For(n, p) && b.g == Gcd(n, p) && b.g <= p
    ensures (n + p) / b.g == b.qn + b.qp
  {
    var qn, qp, x, y := GcdIsGreatestCommonDivisor(n, p);
    b := BlocksFromGcd(n, p, Gcd(n, p), qn, qp, x, y);
  }

  lemma BlocksFromGcd(n: nat, p: nat, g: nat, qn: nat, qp: nat, x: int, y: int) returns (b: Blocks)
    requires n > 0 && p > 0 && g > 0 && n == g * qn && p == g * qp && x * n + y * p == g
    ensures b == Blocks(g, qn, qp, y - x, -x) && b.For(n, p) && (n + p) / g == qn + qp
  {
    b := Blocks(g, qn, qp, y - x, -x);
    assert n + p == g * (qn + qp);
    ShiftCombination(n, p, x, y);
    DivideExact(n + p, g, qn + qp);
  }

  lemma ShiftCombination(n: int, p: int, x: int, y: int)
    ensures (y - x) * p == x * n + y * p + (-x) * (n + p)
  {
  }

  /** A cycle is back at its start after (n + p) / g steps. */
  lemma PosReturns(n: nat, p: nat, b: Blocks, i: nat)
    requires b.For(n, p) && i < p
    ensures Pos(n, p, i, b.qn + b.qp) == n + i
  {
    var m := b.qn + b.qp;
    var t := PosClosedForm(n, p, i, m);
    StepsOfCycle(m, p, b.g, b.qp, n + p, t);
    SameResidue(n + p, Pos(n, p, i, m), n + i, b.qp - t);
  }

  lemma StepsOfCycle(m: int, p: int, g: int, qp: int, len: int, t: int)
    requires p == g * qp && len == g * m
    ensures m * p - t * len == len * (qp - t)
  {
    calc {
      m * p;
      m * (g * qp);
      (g * m) * qp;
      len * qp;
    }
  }

  /** A cycle does not visit a position twice before it is back. */
  lemma PosDistinct(n: nat, p: nat, b: Blocks, i: nat, j: nat, k: nat)
    requires b.For(n, p) && i < p
    requires j < k && k - j < b.qn + b.qp
    ensures Pos(n, p, i, j) != Pos(n, p, i, k)
  {
    if Pos(n, p, i, j) == Pos(n, p, i, k) {
      var t := PosClosedForm(n, p, i, j);
      var t' := PosClosedForm(n, p, i, k);
      assert (k - j) * p == k * p - j * p;
      assert (t' - t) * (n + p) == t' * (n + p) - t * (n + p);
      DivideByStep(p, n + p, b.g, b.qn + b.qp, b.u, b.v, k - j, t' - t);
      SameResidue(b.qn + b.qp, k - j, 0, b.u * (t' - t) - (k - j) * b.v);
    }
  }

  /** A multiple d * p of the step that is a multiple of the length has d a multiple of m. */
  lemma DivideByStep(p: int, len: int, g: nat, m: int, u: int, v: int, d: int, z: int)
    requires g > 0 && len == g * m && u * p == g + v * len && d * p == z * len
    ensures d == m * (u * z - d * v)
  {
    calc {
      g * d;
      (u * p - v * len) * d;
      u * (d * p) - (d * v) * len;
      u * (z * len) - (d * v) * len;
      len * (u * z - d * v);
      g * (m * (u * z - d * v));
    }
    CancelFactor(g, d, m * (u * z - d * v));
  }

  lemma ResidueOfSum(g: nat, i: nat, w: int, r: nat)
    requires i < g && r == g * w + i
    ensures r % g == i
  {
    var q, s := r / g, r % g;
    assert r == g * q + s;
    assert g * q - g * w == g * (q - w);
    SameResidue(g, i, s, q - w);
  }

  /** Cycle i stays inside the residue class of i. */
  lemma PosInClass(n: nat, p: nat, b: Blocks, i: nat, k: nat)
    requires b.For(n, p) && i < b.g && i < p
    ensures Pos(n, p, i, k) % b.g == i
  {
    var t := PosClosedForm(n, p, i, k);
    var w := b.qn + k * b.qp - t * (b.qn + b.qp);
    FactorOut(b.g, b.qn, b.qp, b.qn + b.qp, k, t);
    ResidueOfSum(b.g, i, w, Pos(n, p, i, k));
  }

  lemma FactorOut(g: int, qn: int, qp: int, m: int, k: int, t: int)
    ensures g * (qn + k * qp - t * m) == g * qn + k * (g * qp) - t * (g * m)
  {
  }

  /** Cycle i visits every position of the residue class of i. */
  lemma PosCovers(n: nat, p: nat, b: Blocks, i: nat, r: nat, h: nat) returns (k: nat)
    requires b.For(n, p) && i < b.g && i < p
    requires r < n + p && r == b.g * h + i
    ensures k < b.qn + b.qp && Pos(n, p, i, k) == r
  {
    var q;
    q, k := DivideWithRest((h - b.qn) * b.u, b.qn + b.qp);
    var t := PosClosedForm(n, p, i, k);
    var z := ReachedResidue(n, p, b, i, r, h, q, k, t);
    SameResidue(n + p, r, Pos(n, p, i, k), z);
  }

  lemma ReachedResidue(n: nat, p: nat, b: Blocks, i: nat, r: nat, h: nat, q: int, k: nat, t: nat) returns (z: int)
    requires b.For(n, p) && r == b.g * h + i && (h - b.qn) * b.u == (b.qn + b.qp) * q + k
    ensures r - (n + i + k * p - t * (n + p)) == (n + p) * z
  {
    var w, len := h - b.qn, n + p;
    var c := w * b.v - q * b.qp;
    z := t - c;
    StepsToReach(p, len, b.g, b.qn + b.qp, b.qp, b.u, b.v, w, q, k);
    DistributeMinus(b.g, h, b.qn);
    DistributeMinus(len, t, c);
  }

  /** k steps of length p advance by g * w, up to multiples of the length. */
  lemma StepsToReach(p: int, len: int, g: int, m: int, qp: int, u: int, v: int, w: int, q: int, k: int)
    requires len == g * m && p == g * qp && u * p == g + v * len && w * u == m * q + k
    ensures k * p == g * w + len * (w * v - q * qp)
  {
    calc {
      k * p;
      (w * u - m * q) * p;
      w * (u * p) - q * qp * (g * m);
      w * (g + v * len) - q * qp * len;
      g * w + len * (w * v - q * qp);
    }
  }

  // The cycles as sequences of positions in the vector

  /** Where the element at position pos of the vector has to go. */
  function Target(start: nat, n: nat, p: nat, pos: nat): nat
    requires start <= pos < start + n + p
  {
    start + Next(n, p, pos - start)
  }

  ghost predicate IsCycle(start: nat, n: nat, p: nat, c: seq<nat>) {
    && c != []
    && (forall k :: 0 <= k < |c| ==> start <= c[k] < start + n + p)
    && (forall j, k :: 0 <= j < k < |c| ==> c[j] != c[k])
    && (forall k {:trigger Target(start, n, p, c[k])} :: 0 <= k < |c| ==>
          Target(start, n, p, c[k]) == c[if k + 1 < |c| then k + 1 else 0])
  }

  ghost predicate Visited(cs: seq<seq<nat>>, pos: nat) {
    exists i, k :: 0 <= i < |cs| && 0 <= k < |cs[i]| && cs[i][k] == pos
  }

  /** Disjoint cycles that together visit every position of the two blocks. */
  ghost predicate AreCycles(start: nat, n: nat, p: nat, g: nat, m: nat, cs: seq<seq<nat>>) {
    && |cs| == g
    && (forall i :: 0 <= i < g ==> |cs[i]| == m && IsCycle(start, n, p, cs[i]) && cs[i][0] == start + n + i)
    && (forall pos :: start <= pos < start + n + p ==> Visited(cs, pos))
  }

  ghost predicate Disjoint(cs: seq<seq<nat>>) {
    forall i, j, i', k :: 0 <= i < i' < |cs| && 0 <= j < |cs[i]| && 0 <= k < |cs[i']| ==> cs[i][j] != cs[i'][k]
  }

  lemma CycleOf(start: nat, n: nat, p: nat, b: Blocks, i: nat) returns (c: seq<nat>)
    requires b.For(n, p) && i < b.g <= p
    ensures |c| == b.qn + b.qp && IsCycle(start, n, p, c) && c[0] == start + n + i
    ensures forall k :: 0 <= k < |c| ==> c[k] == start + Pos(n, p, i, k)
  {
    var m := b.qn + b.qp;
    c := seq(m, (k: nat) => start + Pos(n, p, i, k));
    forall j, k | 0 <= j < k < |c| ensures c[j] != c[k] {
      PosDistinct(n, p, b, i, j, k);
    }
    PosReturns(n, p, b, i);
  }

  lemma RotationCycles(start: nat, n: nat, p: nat, b: Blocks) returns (cs: seq<seq<nat>>)
    requires b.For(n, p) && b.g <= p
    ensures AreCycles(start, n, p, b.g, b.qn + b.qp, cs) && Disjoint(cs)
  {
    var g, m := b.g, b.qn + b.qp;
    cs := [];
    for i := 0 to g
      invariant |cs| == i
      invariant forall h :: 0 <= h < i ==> |cs[h]| == m && IsCycle(start, n, p, cs[h]) && cs[h][0] == start + n + h
      invariant forall h, k :: 0 <= h < i && 0 <= k < m ==> cs[h][k] == start + Pos(n, p, h, k)
    {
      var c := CycleOf(start, n, p, b, i);
      cs := cs + [c];
    }
    CyclesPartition(start, n, p, b, cs);
  }

  lemma CyclesOfBlocks(start: nat, n: nat, p: nat) returns (cs: seq<seq<nat>>)
    requires n > 0 && p > 0
    ensures var g := Gcd(n, p); AreCycles(start, n, p, g, (n + p) / g, cs) && Disjoint(cs) && (n + p) / g > 0
  {
    var b := FactorBlocks(n, p);
    cs := RotationCycles(start, n, p, b);
  }

  lemma CyclesPartition(start: nat, n: nat, p: nat, b: Blocks, cs: seq<seq<nat>>)
    requires b.For(n, p) && |cs| == b.g <= p
    requires forall h :: 0 <= h < |cs| ==> |cs[h]| == b.qn + b.qp
    requires forall h, k :: 0 <= h < |cs| && 0 <= k < |cs[h]| ==> cs[h][k] == start + Pos(n, p, h, k)
    ensures Disjoint(cs)
    ensures forall pos :: start <= pos < start + n + p ==> Visited(cs, pos)
  {
    forall i, j, i', k | 0 <= i < i' < |cs| && 0 <= j < |cs[i]| && 0 <= k < |cs[i']| ensures cs[i][j] != cs[i'][k] {
      PosInClass(n, p, b, i, j);
      PosInClass(n, p, b, i', k);
    }
    forall pos | start <= pos < start + n + p ensures Visited(cs, pos) {
      var h, i := DivideWithRest(pos - start, b.g);
      var k := PosCovers(n, p, b, i, pos - start, h);
      assert cs[i][k] == pos;
    }
  }

  /** The elements of cycle c up to the j-th have moved one step, and the first position of the
      cycle holds the element to be moved next. */
  ghost predicate Followed<T>(c: seq<nat>, j: nat, was: seq<T>, now: seq<T>)
    requires c != [] && |was| == |now| && forall k :: 0 <= k < |c| ==> c[k] < |was|
  {
    && (forall k {:trigger now[c[k]]} :: 1 <= k <= j && k < |c| ==> now[c[k]] == was[c[k - 1]])
    && (forall k {:trigger now[c[k]]} :: j < k < |c| ==> now[c[k]] == was[c[k]])
    && now[c[0]] == was[c[if j < |c| then j else |c| - 1]]
  }

  lemma FollowStep<T>(c: seq<nat>, j: nat, was: seq<T>, now: seq<T>)
    requires c != [] && |was| == |now| && j < |c|
    requires forall k :: 0 <= k < |c| ==> c[k] < |was|
    requires forall j, k :: 0 <= j < k < |c| ==> c[j] != c[k]
    requires Followed(c, j, was, now)
    ensures var pos, home := c[if j + 1 < |c| then j + 1 else 0], c[0];
            Followed(c, j + 1, was, now[pos := now[home]][home := now[pos]])
  {
    if j + 1 < |c| {
      assert now[c[j + 1]] == was[c[j + 1]];
    }
  }

  /** The inner loop of permute_args. */
  method FollowCycle<T>(start: nat, n: nat, p: nat, cstart: nat, cyclelen: nat, ghost c: seq<nat>, ghost was: seq<T>,
                        argv: array<T>)
    requires start + n + p <= argv.Length == |was|
    requires IsCycle(start, n, p, c) && |c| == cyclelen && c[0] == cstart
    requires Followed(c, 0, was, argv[..])
    modifies argv
    ensures Followed(c, cyclelen, was, argv[..])
    ensures forall r :: 0 <= r < argv.Length && r !in c ==> argv[r] == old(argv[r])
  {
    var pos := cstart;
    for j := 0 to cyclelen
      invariant pos == c[if j < cyclelen then j else 0]
      invariant Followed(c, j, was, argv[..])
      invariant forall r :: 0 <= r < argv.Length && r !in c ==> argv[r] == old(argv[r])
    {
      ghost var now := argv[..];
      FollowStep(c, j, was, now);
      assert Target(start, n, p, c[j]) == c[if j + 1 < |c| then j + 1 else 0];
      if pos >= start + n {
        pos := pos - n;
      } else {
        pos := pos + p;
      }
      var swap := argv[pos];
      argv[pos] := argv[cstart];
      argv[cstart] := swap;
      assert argv[..] == now[pos := now[cstart]][cstart := now[pos]];
    }
  }

  /** Cycles before the i-th are done, the others and all positions outside them are untouched. */
  ghost predicate Progress<T>(start: nat, len: nat, cs: seq<seq<nat>>, m: nat, i: nat, was: seq<T>, now: seq<T>)
    requires m > 0 && |was| == |now|
    requires forall h :: 0 <= h < |cs| ==> |cs[h]| == m && forall k :: 0 <= k < m ==> cs[h][k] < |was|
  {
    && (forall h :: 0 <= h < |cs| ==> Followed(cs[h], if h < i then m else 0, was, now))
    && (forall r :: 0 <= r < |was| && !(start <= r < start + len) ==> now[r] == was[r])
  }

  lemma NextCycle<T>(start: nat, n: nat, p: nat, g: nat, m: nat, cs: seq<seq<nat>>, i: nat,
                     was: seq<T>, before: seq<T>, now: seq<T>)
    requires m > 0 && i < g && start + n + p <= |was| == |before| == |now|
    requires AreCycles(start, n, p, g, m, cs) && Disjoint(cs)
    requires Progress(start, n + p, cs, m, i, was, before)
    requires Followed(cs[i], m, was, now)
    requires forall r :: 0 <= r < |was| && r !in cs[i] ==> now[r] == before[r]
    ensures Progress(start, n + p, cs, m, i + 1, was, now)
  {
    forall h | 0 <= h < g ensures Followed(cs[h], if h < i + 1 then m else 0, was, now) {
      if h != i {
        forall k | 0 <= k < m ensures now[cs[h][k]] == before[cs[h][k]] {
          assert cs[h][k] !in cs[i];
        }
      }
    }
  }

  lemma MovedToTarget<T>(start: nat, n: nat, p: nat, g: nat, m: nat, cs: seq<seq<nat>>, was: seq<T>, now: seq<T>,
                         pos: nat)
    requires m > 0 && start + n + p <= |was| == |now| && start <= pos < start + n + p
    requires AreCycles(start, n, p, g, m, cs) && Progress(start, n + p, cs, m, g, was, now)
    ensures now[Target(start, n, p, pos)] == was[pos]
  {
    assert Visited(cs, pos);
    var i, k :| 0 <= i < g && 0 <= k < m && cs[i][k] == pos;
    assert Followed(cs[i], m, was, now);
    var k' := if k + 1 < m then k + 1 else 0;
    assert Target(start, n, p, cs[i][k]) == cs[i][k'];
    assert now[cs[i][k']] == was[cs[i][k]];
  }

  lemma Exchanged<T>(start: nat, n: nat, p: nat, g: nat, m: nat, cs: seq<seq<nat>>, was: seq<T>, now: seq<T>)
    requires m > 0 && start + n + p <= |was| == |now|
    requires AreCycles(start, n, p, g, m, cs) && Progress(start, n + p, cs, m, g, was, now)
    ensures now == was[..start] + was[start + n..start + n + p] + was[start..start + n] + was[start + n + p..]
  {
    var goal := was[..start] + was[start + n..start + n + p] + was[start..start + n] + was[start + n + p..];
    forall k | 0 <= k < |was| ensures now[k] == goal[k] {
      if start <= k < start + n + p {
        var pos := if k < start + p then k + n else k - p;
        MovedToTarget(start, n, p, g, m, cs, was, now, pos);
        assert Target(start, n, p, pos) == k;
      }
    }
  }

  /** permute_args: exchanges the blocks [start, end) and [end, stop), each keeping its order. */
  method PermuteArgs<T>(start: nat, end: nat, stop: nat, argv: array<T>)
    requires start < end < stop <= argv.Length
    modifies argv
    ensures argv[..] == old(argv[..start]) + old(argv[end..stop]) + old(argv[start..end]) + old(argv[stop..])
  {
    ghost var was := argv[..];
    var n, p := end - start, stop - end;
    var ncycle := ComputeGcd(n, p);
    var cyclelen := (stop - start) / ncycle;
    ghost var cs := CyclesOfBlocks(start, n, p);

    for i := 0 to ncycle
      invariant Progress(start, n + p, cs, cyclelen, i, was, argv[..])
    {
      ghost var before := argv[..];
      FollowCycle(start, n, p, end + i, cyclelen, cs[i], was, argv);
      NextCycle(start, n, p, ncycle, cyclelen, cs, i, was, before, argv[..]);
    }
    Exchanged(start, n, p, ncycle, cyclelen, cs, was, argv[..]);
  }
}
