/** The 64 operations MD5 applies to one block: the table-driven definition of RFC 1321 against the
    written-out steps of the program. */
module Md5Rounds {
  import opened Bytes

  // ------------------------------------------------------------------------------------------
  // RFC 1321, section 3.4
  // ------------------------------------------------------------------------------------------

  datatype State = State(a: Word32, b: Word32, c: Word32, d: Word32)

  function Plus(u: Word32, v: Word32): Word32 {
    (u + v) % U32
  }

  function AuxBits(round: nat, x: bv32, y: bv32, z: bv32): bv32 {
    if round == 0 then (x & y) | (!x & z)
    else if round == 1 then (x & z) | (y & !z)
    else if round == 2 then x ^ y ^ z
    else y ^ (x | !z)
  }

  /** The auxiliary functions F, G, H and I. */
  function Aux(round: nat, x: Word32, y: Word32, z: Word32): Word32 {
    AuxBits(round, x as bv32, y as bv32, z as bv32) as int
  }

  function RotatedBits(v: bv32, s: bv6): bv32
    requires 0 < s < 32
  {
    (v << s) | (v >> (32 - s))
  }

  /** Circular shift to the left. */
  function Rotated(v: Word32, s: bv6): Word32
    requires 0 < s < 32
  {
    RotatedBits(v as bv32, s) as int
  }

  /** Which word of the block operation i uses. */
  function K(i: nat): nat {
    if i < 16 then i
    else if i < 32 then (1 + 5 * i) % 16
    else if i < 48 then (5 + 3 * i) % 16
    else 7 * i % 16
  }

  /** How far operation i rotates. */
  function S(i: nat): (s: bv6)
    ensures 0 < s < 32
  {
    var c := i % 4;
    if i < 16 then (if c == 0 then 7 else if c == 1 then 12 else if c == 2 then 17 else 22)
    else if i < 32 then (if c == 0 then 5 else if c == 1 then 9 else if c == 2 then 14 else 20)
    else if i < 48 then (if c == 0 then 4 else if c == 1 then 11 else if c == 2 then 16 else 23)
    else if c == 0 then 6 else if c == 1 then 10 else if c == 2 then 15 else 21
  }

  /** The integer part of 2^32 times the absolute value of the sine of i + 1. */
  function T(i: nat): Word32 {
    if i < 16 then T1(i) else if i < 32 then T2(i - 16) else if i < 48 then T3(i - 32) else T4(i - 48)
  }

  function T1(i: nat): Word32 {
    match i
    case 0 => 0xd76aa478
    case 1 => 0xe8c7b756
    case 2 => 0x242070db
    case 3 => 0xc1bdceee
    case 4 => 0xf57c0faf
    case 5 => 0x4787c62a
    case 6 => 0xa8304613
    case 7 => 0xfd469501
    case 8 => 0x698098d8
    case 9 => 0x8b44f7af
    case 10 => 0xffff5bb1
    case 11 => 0x895cd7be
    case 12 => 0x6b901122
    case 13 => 0xfd987193
    case 14 => 0xa679438e
    case _ => 0x49b40821
  }

  function T2(i: nat): Word32 {
    match i
    case 0 => 0xf61e2562
    case 1 => 0xc040b340
    case 2 => 0x265e5a51
    case 3 => 0xe9b6c7aa
    case 4 => 0xd62f105d
    case 5 => 0x02441453
    case 6 => 0xd8a1e681
    case 7 => 0xe7d3fbc8
    case 8 => 0x21e1cde6
    case 9 => 0xc33707d6
    case 10 => 0xf4d50d87
    case 11 => 0x455a14ed
    case 12 => 0xa9e3e905
    case 13 => 0xfcefa3f8
    case 14 => 0x676f02d9
    case _ => 0x8d2a4c8a
  }

  function T3(i: nat): Word32 {
    match i
    case 0 => 0xfffa3942
    case 1 => 0x8771f681
    case 2 => 0x6d9d6122
    case 3 => 0xfde5380c
    case 4 => 0xa4beea44
    case 5 => 0x4bdecfa9
    case 6 => 0xf6bb4b60
    case 7 => 0xbebfbc70
    case 8 => 0x289b7ec6
    case 9 => 0xeaa127fa
    case 10 => 0xd4ef3085
    case 11 => 0x04881d05
    case 12 => 0xd9d4d039
    case 13 => 0xe6db99e5
    case 14 => 0x1fa27cf8
    case _ => 0xc4ac5665
  }

  function T4(i: nat): Word32 {
    match i
    case 0 => 0xf4292244
    case 1 => 0x432aff97
    case 2 => 0xab9423a7
    case 3 => 0xfc93a039
    case 4 => 0x655b59c3
    case 5 => 0x8f0ccc92
    case 6 => 0xffeff47d
    case 7 => 0x85845dd1
    case 8 => 0x6fa87e4f
    case 9 => 0xfe2ce6e0
    case 10 => 0xa3014314
    case 11 => 0x4e0811a1
    case 12 => 0xf7537e82
    case 13 => 0xbd3af235
    case 14 => 0x2ad7d2bb
    case _ => 0xeb86d391
  }

  /** Operation i replaces a and renames the registers, so that the next operation replaces the former d. */
  function Operation(i: nat, s: State, x: seq<Word32>): State
    requires |x| == 16
  {
    var sum := Plus(Plus(Plus(s.a, Aux(i / 16, s.b, s.c, s.d)), x[K(i) % 16]), T(i));
    State(s.d, Plus(s.b, Rotated(sum, S(i))), s.b, s.c)
  }

  function Operations(from: nat, to: nat, s: State, x: seq<Word32>): State
    requires |x| == 16
  {
    if to <= from then s else Operation(to - 1, Operations(from, to - 1, s, x), x)
  }

  lemma {:induction false} OperationsConcat(i: nat, j: nat, k: nat, s: State, x: seq<Word32>)
    requires |x| == 16 && i <= j <= k
    ensures Operations(i, k, s, x) == Operations(j, k, Operations(i, j, s, x), x)
  {
    hide Operation;
    if j < k {
      OperationsConcat(i, j, k - 1, s, x);
    }
  }

  lemma {:induction false} FourOperations(i: nat, s: State, x: seq<Word32>)
    requires |x| == 16
    ensures Operations(i, i + 4, s, x)
            == Operation(i + 3, Operation(i + 2, Operation(i + 1, Operation(i, s, x), x), x), x)
  {
    hide Operation;
    assert Operations(i, i, s, x) == s;
    assert Operations(i, i + 1, s, x) == Operation(i, s, x);
    assert Operations(i, i + 2, s, x) == Operation(i + 1, Operation(i, s, x), x);
  }

  /** The shift amounts of all rounds are circular shifts. */
  lemma RotatedBitsRotate(v: bv32)
    ensures RotatedBits(v, 7) == v.RotateLeft(7) && RotatedBits(v, 12) == v.RotateLeft(12)
    ensures RotatedBits(v, 17) == v.RotateLeft(17) && RotatedBits(v, 22) == v.RotateLeft(22)
    ensures RotatedBits(v, 5) == v.RotateLeft(5) && RotatedBits(v, 9) == v.RotateLeft(9)
    ensures RotatedBits(v, 14) == v.RotateLeft(14) && RotatedBits(v, 20) == v.RotateLeft(20)
    ensures RotatedBits(v, 4) == v.RotateLeft(4) && RotatedBits(v, 11) == v.RotateLeft(11)
    ensures RotatedBits(v, 16) == v.RotateLeft(16) && RotatedBits(v, 23) == v.RotateLeft(23)
    ensures RotatedBits(v, 6) == v.RotateLeft(6) && RotatedBits(v, 10) == v.RotateLeft(10)
    ensures RotatedBits(v, 15) == v.RotateLeft(15) && RotatedBits(v, 21) == v.RotateLeft(21)
  {
  }

  // ------------------------------------------------------------------------------------------
  // The program's formulas
  // ------------------------------------------------------------------------------------------

  datatype Formula = F | G | H | H2 | I {
    function Bits(x: bv32, y: bv32, z: bv32): bv32 {
      match this
      case F => z ^ (x & (y ^ z))
      case G => y ^ (z & (x ^ y))
      case H => (x ^ y) ^ z
      case H2 => x ^ (y ^ z)
      case I => y ^ (x | !z)
    }

    function Value(x: Word32, y: Word32, z: Word32): Word32 {
      Bits(x as bv32, y as bv32, z as bv32) as int
    }

    function Round(): nat {
      match this
      case F => 0
      case G => 1
      case H => 2
      case H2 => 2
      case I => 3
    }
  }

  lemma Selections(x: bv32, y: bv32, z: bv32)
    ensures z ^ (x & (y ^ z)) == (x & y) | (!x & z)
    ensures y ^ (z & (x ^ y)) == (x & z) | (y & !z)
  {
    hide *;
  }

  lemma FormulaBits(f: Formula, x: bv32, y: bv32, z: bv32)
    ensures f.Bits(x, y, z) == AuxBits(f.Round(), x, y, z)
  {
    Selections(x, y, z);
  }

  /** The optimised formulas are the functions of RFC 1321. */
  lemma FormulasAgree(f: Formula, x: Word32, y: Word32, z: Word32)
    ensures f.Value(x, y, z) == Aux(f.Round(), x, y, z)
  {
    hide Formula.Bits, AuxBits, Formula.Round;
    FormulaBits(f, x as bv32, y as bv32, z as bv32);
  }

  /** One step: the new value of a. */
  function Step(f: Formula, a: Word32, b: Word32, c: Word32, d: Word32, x: Word32, t: Word32, s: bv6): Word32
    requires 0 < s < 32
  {
    Plus(Rotated(Plus(a, Plus(Plus(f.Value(b, c, d), x), t)), s), b)
  }

  lemma PlusAssociates(a: Word32, f: Word32, x: Word32, t: Word32)
    ensures Plus(a, Plus(Plus(f, x), t)) == Plus(Plus(Plus(a, f), x), t)
  {
    PlusMod(a, Plus(Plus(f, x), t), f + x + t);
    PlusMod(t, Plus(f, x), f + x);
    PlusMod(x, Plus(a, f), a + f);
    PlusMod(t, Plus(Plus(a, f), x), a + f + x);
  }

  lemma PlusMod(u: Word32, v: Word32, n: nat)
    requires v == n % U32
    ensures Plus(u, v) == Plus(v, u) == (u + n) % U32
  {
  }

  lemma {:induction false} StepIsOperation(f: Formula, i: nat, s: State, x: seq<Word32>)
    requires |x| == 16 && f.Round() == i / 16
    ensures Operation(i, s, x) == State(s.d, Step(f, s.a, s.b, s.c, s.d, x[K(i) % 16], T(i), S(i)), s.b, s.c)
  {
    hide Aux, K, T, S, Formula.Value, Formula.Round, Rotated, Plus;
    FormulasAgree(f, s.b, s.c, s.d);
    PlusAssociates(s.a, f.Value(s.b, s.c, s.d), x[K(i) % 16], T(i));
    PlusCommutes(s.b, Rotated(Plus(Plus(Plus(s.a, Aux(i / 16, s.b, s.c, s.d)), x[K(i) % 16]), T(i)), S(i)));
  }

  lemma PlusCommutes(u: Word32, v: Word32)
    ensures Plus(u, v) == Plus(v, u)
  {
  }

  /** Four steps replace each of the registers once, in the order a, d, c, b. */
  lemma {:induction false} Turn(from: nat, i: nat, s0: State, s: State, x: seq<Word32>, f: Formula, f': Formula,
                                a: Word32, b: Word32, c: Word32, d: Word32)
    requires from <= i && i % 4 == 0 && |x| == 16 && f.Round() == f'.Round() == i / 16
    requires s == Operations(from, i, s0, x)
    requires a == Step(f, s.a, s.b, s.c, s.d, x[K(i) % 16], T(i), S(i))
    requires d == Step(f', s.d, a, s.b, s.c, x[K(i + 1) % 16], T(i + 1), S(i + 1))
    requires c == Step(f, s.c, d, a, s.b, x[K(i + 2) % 16], T(i + 2), S(i + 2))
    requires b == Step(f', s.b, c, d, a, x[K(i + 3) % 16], T(i + 3), S(i + 3))
    ensures Operations(from, i + 4, s0, x) == State(a, b, c, d)
  {
    hide Formula.Round, K, T, S, Step, Operation, Operations;
    SameRound(i);
    StepIsOperation(f, i, s, x);
    StepIsOperation(f', i + 1, State(s.d, a, s.b, s.c), x);
    StepIsOperation(f, i + 2, State(s.c, d, a, s.b), x);
    StepIsOperation(f', i + 3, State(s.b, c, d, a), x);
    FourOperations(i, s, x);
    OperationsConcat(from, i, i + 4, s0, x);
  }

  lemma SameRound(i: nat)
    requires i % 4 == 0
    ensures (i + 1) / 16 == (i + 2) / 16 == (i + 3) / 16 == i / 16
  {
  }

  lemma NoOperations(i: nat, s: State, x: seq<Word32>)
    requires |x| == 16
    ensures Operations(i, i, s, x) == s
  {
  }

  /** Round 1, written out. */
  method Round1(s: State, x: seq<Word32>) returns (r: State)
    requires |x| == 16
    ensures r == Operations(0, 16, s, x)
  {
    hide Step, Operations, Operation, Aux, Rotated, Plus, Formula.Value, Formula.Bits;
    NoOperations(0, s, x);
    var a, b, c, d := s.a, s.b, s.c, s.d;
    ghost var s0 := State(a, b, c, d);
    a := Step(F, a, b, c, d, x[0], 0xd76aa478, 7);
    d := Step(F, d, a, b, c, x[1], 0xe8c7b756, 12);
    c := Step(F, c, d, a, b, x[2], 0x242070db, 17);
    b := Step(F, b, c, d, a, x[3], 0xc1bdceee, 22);
    Turn(0, 0, s, s0, x, F, F, a, b, c, d);
    ghost var s1 := State(a, b, c, d);
    a := Step(F, a, b, c, d, x[4], 0xf57c0faf, 7);
    d := Step(F, d, a, b, c, x[5], 0x4787c62a, 12);
    c := Step(F, c, d, a, b, x[6], 0xa8304613, 17);
    b := Step(F, b, c, d, a, x[7], 0xfd469501, 22);
    Turn(0, 4, s, s1, x, F, F, a, b, c, d);
    ghost var s2 := State(a, b, c, d);
    a := Step(F, a, b, c, d, x[8], 0x698098d8, 7);
    d := Step(F, d, a, b, c, x[9], 0x8b44f7af, 12);
    c := Step(F, c, d, a, b, x[10], 0xffff5bb1, 17);
    b := Step(F, b, c, d, a, x[11], 0x895cd7be, 22);
    Turn(0, 8, s, s2, x, F, F, a, b, c, d);
    ghost var s3 := State(a, b, c, d);
    a := Step(F, a, b, c, d, x[12], 0x6b901122, 7);
    d := Step(F, d, a, b, c, x[13], 0xfd987193, 12);
    c := Step(F, c, d, a, b, x[14], 0xa679438e, 17);
    b := Step(F, b, c, d, a, x[15], 0x49b40821, 22);
    Turn(0, 12, s, s3, x, F, F, a, b, c, d);
    r := State(a, b, c, d);
  }

  /** Round 2, written out. */
  method Round2(s: State, x: seq<Word32>) returns (r: State)
    requires |x| == 16
    ensures r == Operations(16, 32, s, x)
  {
    hide Step, Operations, Operation, Aux, Rotated, Plus, Formula.Value, Formula.Bits;
    NoOperations(16, s, x);
    var a, b, c, d := s.a, s.b, s.c, s.d;
    ghost var s0 := State(a, b, c, d);
    a := Step(G, a, b, c, d, x[1], 0xf61e2562, 5);
    d := Step(G, d, a, b, c, x[6], 0xc040b340, 9);
    c := Step(G, c, d, a, b, x[11], 0x265e5a51, 14);
    b := Step(G, b, c, d, a, x[0], 0xe9b6c7aa, 20);
    Turn(16, 16, s, s0, x, G, G, a, b, c, d);
    ghost var s1 := State(a, b, c, d);
    a := Step(G, a, b, c, d, x[5], 0xd62f105d, 5);
    d := Step(G, d, a, b, c, x[10], 0x02441453, 9);
    c := Step(G, c, d, a, b, x[15], 0xd8a1e681, 14);
    b := Step(G, b, c, d, a, x[4], 0xe7d3fbc8, 20);
    Turn(16, 20, s, s1, x, G, G, a, b, c, d);
    ghost var s2 := State(a, b, c, d);
    a := Step(G, a, b, c, d, x[9], 0x21e1cde6, 5);
    d := Step(G, d, a, b, c, x[14], 0xc33707d6, 9);
    c := Step(G, c, d, a, b, x[3], 0xf4d50d87, 14);
    b := Step(G, b, c, d, a, x[8], 0x455a14ed, 20);
    Turn(16, 24, s, s2, x, G, G, a, b, c, d);
    ghost var s3 := State(a, b, c, d);
    a := Step(G, a, b, c, d, x[13], 0xa9e3e905, 5);
    d := Step(G, d, a, b, c, x[2], 0xfcefa3f8, 9);
    c := Step(G, c, d, a, b, x[7], 0x676f02d9, 14);
    b := Step(G, b, c, d, a, x[12], 0x8d2a4c8a, 20);
    Turn(16, 28, s, s3, x, G, G, a, b, c, d);
    r := State(a, b, c, d);
  }

  /** Round 3, written out. */
  method Round3(s: State, x: seq<Word32>) returns (r: State)
    requires |x| == 16
    ensures r == Operations(32, 48, s, x)
  {
    hide Step, Operations, Operation, Aux, Rotated, Plus, Formula.Value, Formula.Bits;
    NoOperations(32, s, x);
    var a, b, c, d := s.a, s.b, s.c, s.d;
    ghost var s0 := State(a, b, c, d);
    a := Step(H, a, b, c, d, x[5], 0xfffa3942, 4);
    d := Step(H2, d, a, b, c, x[8], 0x8771f681, 11);
    c := Step(H, c, d, a, b, x[11], 0x6d9d6122, 16);
    b := Step(H2, b, c, d, a, x[14], 0xfde5380c, 23);
    Turn(32, 32, s, s0, x, H, H2, a, b, c, d);
    ghost var s1 := State(a, b, c, d);
    a := Step(H, a, b, c, d, x[1], 0xa4beea44, 4);
    d := Step(H2, d, a, b, c, x[4], 0x4bdecfa9, 11);
    c := Step(H, c, d, a, b, x[7], 0xf6bb4b60, 16);
    b := Step(H2, b, c, d, a, x[10], 0xbebfbc70, 23);
    Turn(32, 36, s, s1, x, H, H2, a, b, c, d);
    ghost var s2 := State(a, b, c, d);
    a := Step(H, a, b, c, d, x[13], 0x289b7ec6, 4);
    d := Step(H2, d, a, b, c, x[0], 0xeaa127fa, 11);
    c := Step(H, c, d, a, b, x[3], 0xd4ef3085, 16);
    b := Step(H2, b, c, d, a, x[6], 0x04881d05, 23);
    Turn(32, 40, s, s2, x, H, H2, a, b, c, d);
    ghost var s3 := State(a, b, c, d);
    a := Step(H, a, b, c, d, x[9], 0xd9d4d039, 4);
    d := Step(H2, d, a, b, c, x[12], 0xe6db99e5, 11);
    c := Step(H, c, d, a, b, x[15], 0x1fa27cf8, 16);
    b := Step(H2, b, c, d, a, x[2], 0xc4ac5665, 23);
    Turn(32, 44, s, s3, x, H, H2, a, b, c, d);
    r := State(a, b, c, d);
  }

  /** Round 4, written out. */
  method Round4(s: State, x: seq<Word32>) returns (r: State)
    requires |x| == 16
    ensures r == Operations(48, 64, s, x)
  {
    hide Step, Operations, Operation, Aux, Rotated, Plus, Formula.Value, Formula.Bits;
    NoOperations(48, s, x);
    var a, b, c, d := s.a, s.b, s.c, s.d;
    ghost var s0 := State(a, b, c, d);
    a := Step(I, a, b, c, d, x[0], 0xf4292244, 6);
    d := Step(I, d, a, b, c, x[7], 0x432aff97, 10);
    c := Step(I, c, d, a, b, x[14], 0xab9423a7, 15);
    b := Step(I, b, c, d, a, x[5], 0xfc93a039, 21);
    Turn(48, 48, s, s0, x, I, I, a, b, c, d);
    ghost var s1 := State(a, b, c, d);
    a := Step(I, a, b, c, d, x[12], 0x655b59c3, 6);
    d := Step(I, d, a, b, c, x[3], 0x8f0ccc92, 10);
    c := Step(I, c, d, a, b, x[10], 0xffeff47d, 15);
    b := Step(I, b, c, d, a, x[1], 0x85845dd1, 21);
    Turn(48, 52, s, s1, x, I, I, a, b, c, d);
    ghost var s2 := State(a, b, c, d);
    a := Step(I, a, b, c, d, x[8], 0x6fa87e4f, 6);
    d := Step(I, d, a, b, c, x[15], 0xfe2ce6e0, 10);
    c := Step(I, c, d, a, b, x[6], 0xa3014314, 15);
    b := Step(I, b, c, d, a, x[13], 0x4e0811a1, 21);
    Turn(48, 56, s, s2, x, I, I, a, b, c, d);
    ghost var s3 := State(a, b, c, d);
    a := Step(I, a, b, c, d, x[4], 0xf7537e82, 6);
    d := Step(I, d, a, b, c, x[11], 0xbd3af235, 10);
    c := Step(I, c, d, a, b, x[2], 0x2ad7d2bb, 15);
    b := Step(I, b, c, d, a, x[9], 0xeb86d391, 21);
    Turn(48, 60, s, s3, x, I, I, a, b, c, d);
    r := State(a, b, c, d);
  }
}
