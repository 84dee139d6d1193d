/** One block of MD5: md5_transform of src/data-types/md5.c, and the little-endian words it works on. */
module Md5Transform {
  import opened Bits
  import opened Md5Spec

  // md5_shift, one row for each round
  const S1: seq<nat> := [7, 12, 17, 22, 7, 12, 17, 22, 7, 12, 17, 22, 7, 12, 17, 22]
  const S2: seq<nat> := [5, 9, 14, 20, 5, 9, 14, 20, 5, 9, 14, 20, 5, 9, 14, 20]
  const S3: seq<nat> := [4, 11, 16, 23, 4, 11, 16, 23, 4, 11, 16, 23, 4, 11, 16, 23]
  const S4: seq<nat> := [6, 10, 15, 21, 6, 10, 15, 21, 6, 10, 15, 21, 6, 10, 15, 21]

  function Md5Shift(i: nat): (n: nat)
    requires i < 64
    ensures 0 < n < 32
  {
    ShiftRows(i % 16);
    match i / 16
    case 0 => S1[i % 16]
    case 1 => S2[i % 16]
    case 2 => S3[i % 16]
    case _ => S4[i % 16]
  }

  lemma ShiftRows(j: nat)
    requires j < 16
    ensures |S1| == |S2| == |S3| == |S4| == 16
    ensures S1[j] == S1[j % 4] && S2[j] == S2[j % 4] && S3[j] == S3[j % 4] && S4[j] == S4[j % 4]
    ensures 0 < S1[j] < 32 && 0 < S2[j] < 32 && 0 < S3[j] < 32 && 0 < S4[j] < 32
  {
  }

  lemma ShiftTable(i: nat)
    requires i < 64
    ensures |SHIFTS| == 4 && |SHIFTS[i / 16]| == 4 && Md5Shift(i) == SHIFTS[i / 16][i % 4]
  {
    ShiftRows(i % 16);
    assert i % 16 % 4 == i % 4;
    FirstShifts(i % 4);
  }

  lemma FirstShifts(j: nat)
    requires j < 4
    ensures |S1| == |S2| == |S3| == |S4| == 16 && |SHIFTS| == 4
    ensures |SHIFTS[0]| == |SHIFTS[1]| == |SHIFTS[2]| == |SHIFTS[3]| == 4
    ensures S1[j] == SHIFTS[0][j] && S2[j] == SHIFTS[1][j] && S3[j] == SHIFTS[2][j] && S4[j] == SHIFTS[3][j]
  {
  }

  /** The registers in the roles a, b, c, d of operation i. */
  function Roles(i: nat, s: State): State {
    match i % 4
    case 0 => s
    case 1 => State(s.d, s.a, s.b, s.c)
    case 2 => State(s.c, s.d, s.a, s.b)
    case _ => State(s.b, s.c, s.d, s.a)
  }

  /** The register in role a of operation i, replaced. */
  function Replaced(i: nat, s: State, v: word): State {
    match i % 4
    case 0 => s.(a := v)
    case 1 => s.(d := v)
    case 2 => s.(c := v)
    case _ => s.(b := v)
  }

  lemma NextRoles(i: nat, s: State, v: word)
    ensures var r := Roles(i, s); Roles(i + 1, Replaced(i, s, v)) == State(r.d, v, r.b, r.c)
  {
    assert (i + 1) % 4 == (i % 4 + 1) % 4;
  }

  lemma StepReplaces(i: nat, x: seq<word>, s: State)
    requires i < 64 && |x| == 16
    ensures var r := Roles(i, s); Step(i, x, s) == Replaced(i, s, Operation(i, x, r.a, r.b, r.c, r.d))
  {
    hide Operation;
  }

  /** One turn of the loop, which passes the registers on instead of changing their roles. */
  lemma RolesStep(i: nat, x: seq<word>, s: State)
    requires i < 64 && |x| == 16
    ensures var r := Roles(i, s);
            Roles(i + 1, Step(i, x, s)) == State(r.d, Operation(i, x, r.a, r.b, r.c, r.d), r.b, r.c)
  {
    hide *;
    var r := Roles(i, s);
    StepReplaces(i, x, s);
    NextRoles(i, s, Operation(i, x, r.a, r.b, r.c, r.d));
  }

  /** The word that the loop picks is that of RFC 1321. */
  lemma PicksWord(i: nat)
    requires i < 64
    ensures WordIndex(i) == (if i < 16 then i else if i < 32 then (5 * i + 1) % 16
                             else if i < 48 then (3 * i + 5) % 16 else 7 * i % 16)
  {
    WordOfRound(i / 16, i % 16);
    hide *;
    assert 16 * (i / 16) + i % 16 == i;
  }

  lemma WordOfRound(r: nat, j: nat)
    requires r < 4 && j < 16
    ensures var i := 16 * r + j;
            WordIndex(i) == (if r == 0 then i else if r == 1 then (5 * i + 1) % 16
                             else if r == 2 then (3 * i + 5) % 16 else 7 * i % 16)
  {
    WordTables(j);
    assert (16 * r + j) / 16 == r && (16 * r + j) % 16 == j;
    WholeRounds(5 * j + 1, 5);
    WholeRounds(3 * j + 5, 6);
    WholeRounds(7 * j, 21);
  }

  lemma WholeRounds(a: nat, q: nat)
    ensures (a + 16 * q) % 16 == a % 16
  {
  }

  /** The function that the loop picks is that of RFC 1321. */
  lemma PicksFunction(i: nat, b: word, c: word, d: word)
    requires i < 64
    ensures Aux(i / 16, b, c, d) == (if i < 16 then Select(b, c, d) else if i < 32 then Select(d, b, c)
                                     else if i < 48 then H(b, c, d) else I(b, c, d))
  {
    hide F, G, H, I, Select;
    SelectIsF(b, c, d);
    SelectIsG(b, c, d);
  }

  /** (x & y) | (~x & z), which rounds 1 and 2 of the loop use with the registers in different order. */
  function Select(x: word, y: word, z: word): word {
    var x', y', z' := x as bv32, y as bv32, z as bv32;
    ((x' & y') | (!x' & z')) as int
  }

  lemma SelectIsF(b: word, c: word, d: word)
    ensures Select(b, c, d) == F(b, c, d)
  {
  }

  lemma SelectIsG(b: word, c: word, d: word)
    ensures Select(d, b, c) == G(b, c, d)
  {
    SelectBits(b as bv32, c as bv32, d as bv32);
  }

  lemma SelectBits(b: bv32, c: bv32, d: bv32)
    ensures (d & b) | (!d & c) == GBits(b, c, d)
  {
  }

  /** The loop body computes the operation of RFC 1321. */
  lemma BodyIsOperation(i: nat, x: seq<word>, a: word, b: word, c: word, d: word, f: word, g: nat)
    requires i < 64 && |x| == 16 && g == WordIndex(i) && f == Aux(i / 16, b, c, d)
    ensures |T| == 64
    ensures Add(b, RotateLeft(Add(Add(Add(a, f), T[i]), x[g]), Md5Shift(i))) == Operation(i, x, a, b, c, d)
  {
    hide Aux, WordIndex, RotateLeft, Md5Shift, Add;
    ShiftTable(i);
    Tables();
    AddCommutes(Add(a, f), T[i], x[g]);
  }

  lemma AddCommutes(p: word, t: word, x: word)
    ensures Add(Add(p, t), x) == Add(Add(p, x), t)
  {
    AddTwice(p, t, x);
    AddTwice(p, x, t);
  }

  lemma AddTwice(p: int, t: int, x: int)
    ensures ((p + t) % 0x1_0000_0000 + x) % 0x1_0000_0000 == (p + t + x) % 0x1_0000_0000
  {
  }

  /** md5_transform: the registers after one block. */
  method Transform(state: array<word>, block: seq<byte>)
    requires state.Length == 4 && |block| == 64
    modifies state
    ensures StateOf(state[..]) == Compress(old(StateOf(state[..])), block)
  {
    hide Operation, Step, RotateLeft, Aux, WordIndex, Md5Shift, Select, H, I, Add;
    var x := LoadLe32(block);
    var s := StateOf(state[..]);
    var a, b, c, d := state[0], state[1], state[2], state[3];
    for i := 0 to 64
      invariant State(a, b, c, d) == Roles(i, Steps(i, x, s)) && state[..] == old(state[..])
    {
      var f: word, g: nat;
      if i < 16 {
        f, g := Select(b, c, d), i;
      } else if i < 32 {
        f, g := Select(d, b, c), (5 * i + 1) % 16;
      } else if i < 48 {
        f, g := H(b, c, d), (3 * i + 5) % 16;
      } else {
        f, g := I(b, c, d), 7 * i % 16;
      }
      PicksWord(i);
      PicksFunction(i, b, c, d);
      BodyIsOperation(i, x, a, b, c, d, f, g);
      RolesStep(i, x, Steps(i, x, s));
      var temp := d;
      d := c;
      c := b;
      b := Add(b, RotateLeft(Add(Add(Add(a, f), T[i]), x[g]), Md5Shift(i)));
      a := temp;
    }
    state[0] := Add(state[0], a);
    state[1] := Add(state[1], b);
    state[2] := Add(state[2], c);
    state[3] := Add(state[3], d);
    assert State(a, b, c, d) == Steps(64, x, s);
  }

  function StateOf(regs: seq<word>): State
    requires |regs| == 4
  {
    State(regs[0], regs[1], regs[2], regs[3])
  }

  /** md5_load_le32 */
  method LoadLe32(input: seq<byte>) returns (x: seq<word>)
    requires |input| == 64
    ensures x == Words(input)
  {
    hide WordOf;
    x := [];
    var j := 0;
    while j < |input|
      invariant j == 4 * |x| <= 64
      invariant forall i :: 0 <= i < |x| ==>
                  x[i] == WordOf(input[4 * i], input[4 * i + 1], input[4 * i + 2], input[4 * i + 3])
      decreases 64 - j
    {
      x := x + [WordOf(input[j], input[j + 1], input[j + 2], input[j + 3])];
      j := j + 4;
    }
  }

  /** md5_store_le32 on the registers. */
  method StoreLe32(state: array<word>) returns (output: seq<byte>)
    requires state.Length == 4
    ensures output == DigestOf(StateOf(state[..]))
  {
    hide BytesOf;
    output := [];
    for i := 0 to 4
      invariant i == 0 ==> output == []
      invariant i == 1 ==> output == BytesOf(state[0])
      invariant i == 2 ==> output == BytesOf(state[0]) + BytesOf(state[1])
      invariant i == 3 ==> output == BytesOf(state[0]) + BytesOf(state[1]) + BytesOf(state[2])
      invariant i == 4 ==> output == BytesOf(state[0]) + BytesOf(state[1]) + BytesOf(state[2]) + BytesOf(state[3])
    {
      if i == 0 {
        assert [] + BytesOf(state[0]) == BytesOf(state[0]);
      }
      output := output + BytesOf(state[i]);
    }
  }
}
