/** The digest of "abc", as section A.5 of RFC 1321 has it: tables and layout of the definition worked out
    operation by operation. */
module Md5Example {
  import opened Bytes
  import opened Md5Rounds
  import opened Md5

  /** The words of the padded message. */
  const ABC: seq<Word32> := [0x80636261, 0, 0, 0, 0, 0, 0, 0, 0, 0, 0, 0, 0, 0, 24, 0]

  predicate After(i: nat, s: State) {
    Operations(0, i, INITIAL, ABC) == s
  }

  /** The registers after the first i operations. */
  predicate Reached(i: nat, a: bv32, b: bv32, c: bv32, d: bv32) {
    After(i, State(a as int, b as int, c as int, d as int))
  }

  lemma Start()
    ensures Reached(0, 0x67452301, 0xefcdab89, 0x98badcfe, 0x10325476)
  {
  }

  lemma Letters()
    ensures |ABC| == 16 && ABC[0] == 0x80636261 && ABC[14] == 24
    ensures forall k | 0 < k < 16 && k != 14 :: ABC[k] == 0
  {
  }

  /** The entries of the tables for operation i. */
  predicate Entry(i: nat, k: nat, t: Word32, s: bv6) {
    K(i) == k < 16 && T(i) == t && S(i) == s
  }

  function Sum(a: Word32, v: Word32, w: Word32, t: Word32): Word32 {
    (a + v + w + t) % U32
  }

  /** One operation: word, table entry and rotation, the sum that is rotated, and the new register. */
  predicate Computes(round: nat, a: bv32, b: bv32, c: bv32, d: bv32, w: bv32, t: bv32, s: bv6, sum: bv32, n: bv32) {
    && 0 < s < 32
    && Sum(a as int, AuxBits(round, b, c, d) as int, w as int, t as int) == sum as int
    && Plus(b as int, RotatedBits(sum, s) as int) == n as int
  }

  lemma AuxOfBits(round: nat, x: bv32, y: bv32, z: bv32)
    ensures Aux(round, x as int, y as int, z as int) == AuxBits(round, x, y, z) as int
  {
    hide AuxBits;
  }

  lemma RotatedOfBits(v: bv32, s: bv6)
    requires 0 < s < 32
    ensures Rotated(v as int, s) == RotatedBits(v, s) as int
  {
    hide RotatedBits;
  }

  lemma SumModulo(u: nat, v: nat)
    ensures (u % U32 + v) % U32 == (u + v) % U32
  {
  }

  lemma SumOfFour(a: Word32, v: Word32, w: Word32, t: Word32)
    ensures Plus(Plus(Plus(a, v), w), t) == Sum(a, v, w, t)
  {
    SumModulo(a + v, w);
    SumModulo(a + v + w, t);
  }

  lemma OperationIs(i: nat, s: State, x: seq<Word32>, w: Word32, t: Word32, r: bv6, sum: Word32, n: Word32)
    requires |x| == 16 && K(i) < 16 && x[K(i)] == w && T(i) == t && S(i) == r
    requires Sum(s.a, Aux(i / 16, s.b, s.c, s.d), w, t) == sum && Plus(s.b, Rotated(sum, r)) == n
    ensures Operation(i, s, x) == State(s.d, n, s.b, s.c)
  {
    hide Aux, Rotated, K, T, S, Plus, Sum;
    SumOfFour(s.a, Aux(i / 16, s.b, s.c, s.d), w, t);
  }

  lemma AfterNext(i: nat, s: State, k: nat, w: Word32, t: Word32, r: bv6, sum: Word32, n: Word32)
    requires After(i, s) && Entry(i, k, t, r) && |ABC| == 16 && ABC[k] == w
    requires Sum(s.a, Aux(i / 16, s.b, s.c, s.d), w, t) == sum && Plus(s.b, Rotated(sum, r)) == n
    ensures After(i + 1, State(s.d, n, s.b, s.c))
  {
    hide Operation, Aux, Rotated, Plus, Sum, K, T, S, ABC, INITIAL;
    OperationIs(i, s, ABC, w, t, r, sum, n);
  }

  lemma Next(i: nat, a: bv32, b: bv32, c: bv32, d: bv32, k: nat, w: bv32, t: bv32, s: bv6, sum: bv32, n: bv32)
    requires Reached(i, a, b, c, d) && Entry(i, k, t as int, s) && |ABC| == 16 && ABC[k] == w as int
    requires Computes(i / 16, a, b, c, d, w, t, s, sum, n)
    ensures Reached(i + 1, d, n, b, c)
  {
    hide AuxBits, RotatedBits, Aux, Rotated, Plus, Sum, ABC, After, Entry;
    AuxOfBits(i / 16, b, c, d);
    RotatedOfBits(sum, s);
    AfterNext(i, State(a as int, b as int, c as int, d as int), k, w as int, t as int, s, sum as int, n as int);
  }

  lemma Tables1()
    ensures Entry(0, 0, 0xd76aa478, 7) && Entry(1, 1, 0xe8c7b756, 12) && Entry(2, 2, 0x242070db, 17)
    ensures Entry(3, 3, 0xc1bdceee, 22) && Entry(4, 4, 0xf57c0faf, 7) && Entry(5, 5, 0x4787c62a, 12)
    ensures Entry(6, 6, 0xa8304613, 17) && Entry(7, 7, 0xfd469501, 22) && Entry(8, 8, 0x698098d8, 7)
    ensures Entry(9, 9, 0x8b44f7af, 12) && Entry(10, 10, 0xffff5bb1, 17) && Entry(11, 11, 0x895cd7be, 22)
    ensures Entry(12, 12, 0x6b901122, 7) && Entry(13, 13, 0xfd987193, 12) && Entry(14, 14, 0xa679438e, 17)
    ensures Entry(15, 15, 0x49b40821, 22)
  {
  }

  lemma Tables2()
    ensures Entry(16, 1, 0xf61e2562, 5) && Entry(17, 6, 0xc040b340, 9) && Entry(18, 11, 0x265e5a51, 14)
    ensures Entry(19, 0, 0xe9b6c7aa, 20) && Entry(20, 5, 0xd62f105d, 5) && Entry(21, 10, 0x02441453, 9)
    ensures Entry(22, 15, 0xd8a1e681, 14) && Entry(23, 4, 0xe7d3fbc8, 20) && Entry(24, 9, 0x21e1cde6, 5)
    ensures Entry(25, 14, 0xc33707d6, 9) && Entry(26, 3, 0xf4d50d87, 14) && Entry(27, 8, 0x455a14ed, 20)
    ensures Entry(28, 13, 0xa9e3e905, 5) && Entry(29, 2, 0xfcefa3f8, 9) && Entry(30, 7, 0x676f02d9, 14)
    ensures Entry(31, 12, 0x8d2a4c8a, 20)
  {
  }

  lemma Tables3()
    ensures Entry(32, 5, 0xfffa3942, 4) && Entry(33, 8, 0x8771f681, 11) && Entry(34, 11, 0x6d9d6122, 16)
    ensures Entry(35, 14, 0xfde5380c, 23) && Entry(36, 1, 0xa4beea44, 4) && Entry(37, 4, 0x4bdecfa9, 11)
    ensures Entry(38, 7, 0xf6bb4b60, 16) && Entry(39, 10, 0xbebfbc70, 23) && Entry(40, 13, 0x289b7ec6, 4)
    ensures Entry(41, 0, 0xeaa127fa, 11) && Entry(42, 3, 0xd4ef3085, 16) && Entry(43, 6, 0x04881d05, 23)
    ensures Entry(44, 9, 0xd9d4d039, 4) && Entry(45, 12, 0xe6db99e5, 11) && Entry(46, 15, 0x1fa27cf8, 16)
    ensures Entry(47, 2, 0xc4ac5665, 23)
  {
  }

  lemma Tables4()
    ensures Entry(48, 0, 0xf4292244, 6) && Entry(49, 7, 0x432aff97, 10) && Entry(50, 14, 0xab9423a7, 15)
    ensures Entry(51, 5, 0xfc93a039, 21) && Entry(52, 12, 0x655b59c3, 6) && Entry(53, 3, 0x8f0ccc92, 10)
    ensures Entry(54, 10, 0xffeff47d, 15) && Entry(55, 1, 0x85845dd1, 21) && Entry(56, 8, 0x6fa87e4f, 6)
    ensures Entry(57, 15, 0xfe2ce6e0, 10) && Entry(58, 6, 0xa3014314, 15) && Entry(59, 13, 0x4e0811a1, 21)
    ensures Entry(60, 4, 0xf7537e82, 6) && Entry(61, 11, 0xbd3af235, 10) && Entry(62, 2, 0x2ad7d2bb, 15)
    ensures Entry(63, 9, 0xeb86d391, 21)
  {
  }

  lemma Operations1to16()
    ensures Reached(16, 0xdda9b9a6, 0x72aff2e0, 0xe396856b, 0xa1051895)
  {
    hide Reached, Entry, ABC;
    Tables1();
    Letters();
    Start();
    Next(0, 0x67452301, 0xefcdab89, 0x98badcfe, 0x10325476, 0, 0x80636261, 0xd76aa478, 7, 0x57ce06d8, 0xd6d117b4);
    Next(1, 0x10325476, 0xd6d117b4, 0xefcdab89, 0x98badcfe, 1, 0x0, 0xe8c7b756, 12, 0xc7e5d796, 0x344a8432);
    Next(2, 0x98badcfe, 0x344a8432, 0xd6d117b4, 0xefcdab89, 2, 0x0, 0x242070db, 17, 0x9ca07d92, 0x2f6fbd72);
    Next(3, 0xefcdab89, 0x2f6fbd72, 0x344a8432, 0xd6d117b4, 3, 0x0, 0xc1bdceee, 22, 0xa666012d, 0x7ad956f2);
    Next(4, 0xd6d117b4, 0x7ad956f2, 0x2f6fbd72, 0x344a8432, 4, 0x0, 0xf57c0faf, 7, 0xfa98bbd5, 0xc73741ef);
    Next(5, 0x344a8432, 0xc73741ef, 0x7ad956f2, 0x2f6fbd72, 5, 0x0, 0x4787c62a, 12, 0xe62c474e, 0x8bac3051);
    Next(6, 0x2f6fbd72, 0x8bac3051, 0xc73741ef, 0x7ad956f2, 6, 0x0, 0xa8304613, 17, 0xcb154a68, 0x207dc67b);
    Next(7, 0x7ad956f2, 0x207dc67b, 0x8bac3051, 0xc73741ef, 7, 0x0, 0xfd469501, 22, 0x3f4dedc8, 0x928d99f6);
    Next(8, 0xc73741ef, 0x928d99f6, 0x207dc67b, 0x8bac3051, 8, 0x0, 0x698098d8, 7, 0x39e57b3a, 0x854b3712);
    Next(9, 0x8bac3051, 0x854b3712, 0x928d99f6, 0x207dc67b, 9, 0x0, 0x8b44f7af, 12, 0xb72ef97b, 0x74e2f284);
    Next(10, 0x207dc67b, 0x74e2f284, 0x854b3712, 0x928d99f6, 10, 0x0, 0xffff5bb1, 17, 0xa6cc5d9e, 0x3020401c);
    Next(11, 0x928d99f6, 0x3020401c, 0x74e2f284, 0x854b3712, 11, 0x0, 0x895cd7be, 22, 0xd155e8ba, 0x5ed49596);
    Next(12, 0x854b3712, 0x5ed49596, 0x3020401c, 0x74e2f284, 12, 0x0, 0x6b901122, 7, 0x20fdaa48, 0xdda9b9a6);
    Next(13, 0x74e2f284, 0xdda9b9a6, 0x5ed49596, 0x3020401c, 13, 0x0, 0xfd987193, 12, 0xeefc35b5, 0xa1051895);
    Next(14, 0x3020401c, 0xa1051895, 0xdda9b9a6, 0x5ed49596, 14, 0x18, 0xa679438e, 17, 0xb66b2148, 0xe396856b);
    Next(15, 0x5ed49596, 0xe396856b, 0xa1051895, 0xdda9b9a6, 15, 0x0, 0x49b40821, 22, 0x65b5d63c, 0x72aff2e0);
  }

  lemma Operations17to32()
    requires Reached(16, 0xdda9b9a6, 0x72aff2e0, 0xe396856b, 0xa1051895)
    ensures Reached(32, 0x790a77fb, 0x726342d3, 0xa62884aa, 0x9f47e4f8)
  {
    hide Reached, Entry, ABC;
    Tables2();
    Letters();
    Next(16, 0xdda9b9a6, 0x72aff2e0, 0xe396856b, 0xa1051895, 1, 0x0, 0xf61e2562, 5, 0x365f74f2, 0x3e9e9126);
    Next(17, 0xa1051895, 0x3e9e9126, 0x72aff2e0, 0xe396856b, 6, 0x0, 0xc040b340, 9, 0x9405bf77, 0x4a1d804e);
    Next(18, 0xe396856b, 0x4a1d804e, 0x3e9e9126, 0x72aff2e0, 11, 0x0, 0x265e5a51, 14, 0x58126102, 0xe25e1652);
    Next(19, 0x72aff2e0, 0xe25e1652, 0x4a1d804e, 0x3e9e9126, 0, 0x80636261, 0xe9b6c7aa, 20, 0x3ee92d35, 0xb5b204e4);
    Next(20, 0x3e9e9126, 0xb5b204e4, 0xe25e1652, 0x4a1d804e, 5, 0x0, 0xd62f105d, 5, 0xb51fb7d7, 0x59a8ffda);
    Next(21, 0x4a1d804e, 0x59a8ffda, 0xb5b204e4, 0xe25e1652, 10, 0x0, 0x02441453, 9, 0xa209ab97, 0x6d002f1e);
    Next(22, 0xe25e1652, 0x6d002f1e, 0x59a8ffda, 0xb5b204e4, 15, 0x0, 0xd8a1e681, 14, 0x2808fbf1, 0xabfc7920);
    Next(23, 0xb5b204e4, 0xabfc7920, 0x6d002f1e, 0x59a8ffda, 4, 0x0, 0xe7d3fbc8, 20, 0xcb2e79b0, 0x47092c07);
    Next(24, 0x59a8ffda, 0x47092c07, 0xabfc7920, 0x6d002f1e, 9, 0x0, 0x21e1cde6, 5, 0x438749e6, 0xb7f268cf);
    Next(25, 0x6d002f1e, 0xb7f268cf, 0x47092c07, 0xabfc7920, 14, 0x18, 0xc33707d6, 9, 0x1828a313, 0x9388eff);
    Next(26, 0xabfc7920, 0x9388eff, 0xb7f268cf, 0x47092c07, 3, 0x0, 0xf4d50d87, 14, 0x52cbd376, 0xfe1623b1);
    Next(27, 0x47092c07, 0xfe1623b1, 0x9388eff, 0xb7f268cf, 8, 0x0, 0x455a14ed, 20, 0x4a7de7a5, 0x786acb8f);
    Next(28, 0xb7f268cf, 0x786acb8f, 0xfe1623b1, 0x9388eff, 13, 0x0, 0xa9e3e905, 5, 0x6004fd63, 0x790a77fb);
    Next(29, 0x9388eff, 0x790a77fb, 0x786acb8f, 0xfe1623b1, 2, 0x0, 0xfcefa3f8, 9, 0x7e931eb6, 0x9f47e4f8);
    Next(30, 0xfe1623b1, 0x9f47e4f8, 0x790a77fb, 0x786acb8f, 7, 0x0, 0x676f02d9, 14, 0x7ec81b82, 0xa62884aa);
    Next(31, 0x786acb8f, 0xa62884aa, 0x9f47e4f8, 0x790a77fb, 12, 0x0, 0x8d2a4c8a, 20, 0xabe29cc3, 0x726342d3);
  }

  lemma Operations33to48()
    requires Reached(32, 0x790a77fb, 0x726342d3, 0xa62884aa, 0x9f47e4f8)
    ensures Reached(48, 0x7f2e507b, 0x7beb9700, 0x8fae6399, 0x99d9679d)
  {
    hide Reached, Entry, ABC;
    Tables3();
    Letters();
    Next(32, 0x790a77fb, 0x726342d3, 0xa62884aa, 0x9f47e4f8, 5, 0x0, 0xfffa3942, 4, 0xc410d3be, 0xb3707ebf);
    Next(33, 0x9f47e4f8, 0xb3707ebf, 0x726342d3, 0xa62884aa, 8, 0x0, 0x8771f681, 11, 0x8df5943f, 0x60127b2e);
    Next(34, 0xa62884aa, 0x60127b2e, 0xb3707ebf, 0x726342d3, 11, 0x0, 0x6d9d6122, 16, 0xb4c72d0e, 0x8d212ff5);
    Next(35, 0x726342d3, 0x8d212ff5, 0x60127b2e, 0xb3707ebf, 14, 0x18, 0xfde5380c, 23, 0xce8ba55b, 0x3b0875c7);
    Next(36, 0xb3707ebf, 0x3b0875c7, 0x8d212ff5, 0x60127b2e, 1, 0x0, 0xa4beea44, 4, 0x2e6a8a1f, 0x21b117b9);
    Next(37, 0x60127b2e, 0x21b117b9, 0x3b0875c7, 0x8d212ff5, 4, 0x0, 0x4bdecfa9, 11, 0x43899862, 0x6e7429d5);
    Next(38, 0x8d212ff5, 0x6e7429d5, 0x21b117b9, 0x3b0875c7, 7, 0x0, 0xf6bb4b60, 16, 0xf8a9c700, 0x3575227e);
    Next(39, 0x3b0875c7, 0x3575227e, 0x6e7429d5, 0x21b117b9, 10, 0x0, 0xbebfbc70, 23, 0x74784e49, 0x5a2f5ea5);
    Next(40, 0x21b117b9, 0x5a2f5ea5, 0x3575227e, 0x6e7429d5, 13, 0x0, 0x289b7ec6, 4, 0x4b7aeb8d, 0x11de1779);
    Next(41, 0x6e7429d5, 0x11de1779, 0x5a2f5ea5, 0x3575227e, 0, 0x80636261, 0xeaa127fa, 11, 0x57fd1fd2, 0xfadcaa38);
    Next(42, 0x3575227e, 0xfadcaa38, 0x11de1779, 0x5a2f5ea5, 3, 0x0, 0xd4ef3085, 16, 0xbb9236e7, 0x31c465ca);
    Next(43, 0x5a2f5ea5, 0x31c465ca, 0xfadcaa38, 0x11de1779, 6, 0x0, 0x04881d05, 23, 0x397e5435, 0x4c6124f4);
    Next(44, 0x11de1779, 0x4c6124f4, 0x31c465ca, 0xfadcaa38, 9, 0x0, 0xd9d4d039, 4, 0x732cd2b8, 0x7f2e507b);
    Next(45, 0xfadcaa38, 0x7f2e507b, 0x4c6124f4, 0x31c465ca, 12, 0x0, 0xe6db99e5, 11, 0xe4435562, 0x99d9679d);
    Next(46, 0x31c465ca, 0x99d9679d, 0x7f2e507b, 0x4c6124f4, 15, 0x0, 0x1fa27cf8, 16, 0xfbfcf5d4, 0x8fae6399);
    Next(47, 0x4c6124f4, 0x8fae6399, 0x99d9679d, 0x7f2e507b, 2, 0x0, 0xc4ac5665, 23, 0x7a66cfd8, 0x7beb9700);
  }

  lemma Operations49to64()
    requires Reached(48, 0x7f2e507b, 0x7beb9700, 0x8fae6399, 0x99d9679d)
    ensures Reached(64, 0x310ade8f, 0xc08226b3, 0xe484b9d8, 0x624d8cb2)
  {
    hide Reached, Entry, ABC;
    Tables4();
    Letters();
    Next(48, 0x7f2e507b, 0x7beb9700, 0x8fae6399, 0x99d9679d, 0, 0x80636261, 0xf4292244, 6, 0xe3fcd21b, 0x7b201df8);
    Next(49, 0x99d9679d, 0x7b201df8, 0x7beb9700, 0x8fae6399, 7, 0x0, 0x432aff97, 10, 0xdd9e7232, 0xf4e8e96e);
    Next(50, 0x8fae6399, 0xf4e8e96e, 0x7b201df8, 0x7beb9700, 14, 0x18, 0xab9423a7, 15, 0xcb1f7b5f, 0xb298cefd);
    Next(51, 0x7beb9700, 0xb298cefd, 0xf4e8e96e, 0x7b201df8, 5, 0x0, 0xfc93a039, 21, 0xbab63eca, 0x8bf025c4);
    Next(52, 0x7b201df8, 0x8bf025c4, 0xb298cefd, 0xf4e8e96e, 12, 0x0, 0x655b59c3, 6, 0x19eb70e3, 0x6cc5e8a);
    Next(53, 0xf4e8e96e, 0x6cc5e8a, 0x8bf025c4, 0xb298cefd, 3, 0x0, 0x8f0ccc92, 10, 0x4815104e, 0x5b0d97aa);
    Next(54, 0xb298cefd, 0x5b0d97aa, 0x6cc5e8a, 0x8bf025c4, 10, 0x0, 0xffeff47d, 15, 0x2c4c44ab, 0x7d632dd0);
    Next(55, 0x8bf025c4, 0x7d632dd0, 0x5b0d97aa, 0x6cc5e8a, 1, 0x0, 0x85845dd1, 21, 0xb7f2bdf4, 0x3bfa2c27);
    Next(56, 0x6cc5e8a, 0x3bfa2c27, 0x7d632dd0, 0x5b0d97aa, 8, 0x0, 0x6fa87e4f, 6, 0x390e1e80, 0x7f81cc35);
    Next(57, 0x5b0d97aa, 0x7f81cc35, 0x3bfa2c27, 0x7d632dd0, 15, 0x0, 0xfe2ce6e0, 10, 0x1da270a2, 0x94454ab);
    Next(58, 0x7d632dd0, 0x94454ab, 0x7f81cc35, 0x3bfa2c27, 6, 0x0, 0xa3014314, 15, 0xd3288cb2, 0x4f9dbe3f);
    Next(59, 0x3bfa2c27, 0x4f9dbe3f, 0x94454ab, 0x7f81cc35, 13, 0x0, 0x4e0811a1, 21, 0x50be291c, 0x7327d604);
    Next(60, 0x7f81cc35, 0x7327d604, 0x4f9dbe3f, 0x94454ab, 4, 0x0, 0xf7537e82, 6, 0x2ef78c22, 0x310ade8f);
    Next(61, 0x94454ab, 0x310ade8f, 0x7327d604, 0x4f9dbe3f, 11, 0x0, 0xbd3af235, 10, 0x88cc50ab, 0x624d8cb2);
    Next(62, 0x4f9dbe3f, 0x624d8cb2, 0x310ade8f, 0x7327d604, 2, 0x0, 0x2ad7d2bb, 15, 0x5a4d046e, 0xe484b9d8);
    Next(63, 0x7327d604, 0xe484b9d8, 0x624d8cb2, 0x310ade8f, 9, 0x0, 0xeb86d391, 21, 0xeb66dedf, 0xc08226b3);
  }

  /** The padded message. */
  function Block(): (b: seq<Byte>)
    ensures |b| == 64
  {
    [97, 98, 99, 0x80] + Zeros(52) + [24, 0, 0, 0, 0, 0, 0, 0]
  }

  lemma Padded()
    ensures [97, 98, 99] + Padding(3) == Block()
  {
    hide Le32;
    Le32Digits(24, 24, 0, 0, 0);
    Le32Digits(0, 0, 0, 0, 0);
  }

  lemma BlockWord(k: nat)
    requires k < 16
    ensures |ABC| == 16 && WordAt(Block(), k) == ABC[k]
  {
    var b := Block();
    Letters();
    hide ABC;
    if 0 < k < 14 {
      assert b[4 * k] == b[4 * k + 1] == b[4 * k + 2] == b[4 * k + 3] == 0;
    }
  }

  lemma BlockWords()
    ensures Words(Block()) == ABC
  {
    hide Block, WordAt, ABC;
    Letters();
    forall k | 0 <= k < 16
      ensures Words(Block())[k] == ABC[k]
    {
      BlockWord(k);
    }
  }

  lemma OneBlock(b: seq<Byte>)
    requires |b| == 64
    ensures Compressed(INITIAL, b) == Compress(INITIAL, b)
  {
    hide Compress, INITIAL;
    assert b[..64] == b && b[64..] == [];
    assert Compressed(Compress(INITIAL, b), []) == Compress(INITIAL, b);
  }

  lemma Registers()
    ensures Compress(INITIAL, Block()) == State(0x98500190, 0xb04fd23c, 0x7d3f96d6, 0x727fe128)
  {
    hide Operations, Reached, ABC, Block, Words;
    BlockWords();
    Operations1to16();
    Operations17to32();
    Operations33to48();
    Operations49to64();
    LastReached();
  }

  lemma LastReached()
    requires Reached(64, 0x310ade8f, 0xc08226b3, 0xe484b9d8, 0x624d8cb2)
    ensures Operations(0, 64, INITIAL, ABC) == State(0x310ade8f, 0xc08226b3, 0xe484b9d8, 0x624d8cb2)
  {
    hide Operations, ABC, INITIAL;
  }

  /** MD5 ("abc") = 900150983cd24fb0d6963f7d28e17f72. */
  lemma DigestOfAbc()
    ensures Digest([97, 98, 99]) == [0x90, 0x01, 0x50, 0x98, 0x3c, 0xd2, 0x4f, 0xb0,
                                     0xd6, 0x96, 0x3f, 0x7d, 0x28, 0xe1, 0x7f, 0x72]
  {
    hide Le32, Compress, Compressed, Block, Padding, INITIAL;
    Padded();
    OneBlock(Block());
    Registers();
    Le32Digits(0x98500190, 0x90, 0x01, 0x50, 0x98);
    Le32Digits(0xb04fd23c, 0x3c, 0xd2, 0x4f, 0xb0);
    Le32Digits(0x7d3f96d6, 0xd6, 0x96, 0x3f, 0x7d);
    Le32Digits(0x727fe128, 0x28, 0xe1, 0x7f, 0x72);
  }
}
