/** The Internet checksum: word-at-a-time summation in host byte order against RFC 1071. */
module Checksum {
  import opened Bytes

  // ------------------------------------------------------------------------------------------
  // Reference: RFC 1071 section 1, in network byte order and without any width limit
  // ------------------------------------------------------------------------------------------

  /** Sum of the big-endian 16-bit words of d; an odd last octet is padded with zero. */
  function BeSum(d: seq<Byte>): nat {
    if |d| == 0 then 0
    else if |d| == 1 then 256 * d[0]
    else 256 * d[0] + d[1] + BeSum(d[2..])
  }

  /** Adds the carries back in until the sum fits 16 bits. */
  function Fold(s: nat): nat {
    if s < U16 then s else Fold(s % U16 + s / U16)
  }

  /** The checksum of d as a number; it is transmitted most significant octet first. */
  function InternetChecksum(d: seq<Byte>): Word16 {
    FoldFacts(BeSum(d));
    0xffff - Fold(BeSum(d))
  }

  /** A receiver accepts d when the ones' complement sum of all words is all ones. */
  predicate Verifies(d: seq<Byte>) {
    Fold(BeSum(d)) == 0xffff
  }

  /** The example of section 3 of RFC 1071: the words 0001, f203, f4f5 and f6f7 sum up to ddf2. */
  lemma Rfc1071Example()
    ensures InternetChecksum([0x00, 0x01, 0xf2, 0x03, 0xf4, 0xf5, 0xf6, 0xf7]) == 0x10000 - 1 - 0xddf2
  {
    var d: seq<Byte> := [0x00, 0x01, 0xf2, 0x03, 0xf4, 0xf5, 0xf6, 0xf7];
    assert d[2..] == [0xf2, 0x03, 0xf4, 0xf5, 0xf6, 0xf7] && d[2..][2..] == [0xf4, 0xf5, 0xf6, 0xf7];
    assert d[2..][2..][2..] == [0xf6, 0xf7] && d[2..][2..][2..][2..] == [];
    assert BeSum(d) == 0x2ddf0;
    assert 0x2ddf0 % U16 + 0x2ddf0 / U16 == 0xddf2;
  }

  // ------------------------------------------------------------------------------------------
  // Folding
  // ------------------------------------------------------------------------------------------

  lemma {:induction false} FoldFacts(s: nat)
    ensures Fold(s) <= 0xffff
    ensures Fold(s) == 0 <==> s == 0
    ensures exists k: nat :: s == Fold(s) + 0xffff * k
  {
    if s < U16 {
      assert s == Fold(s) + 0xffff * 0;
    } else {
      var t := s % U16 + s / U16;
      FoldFacts(t);
      var k: nat :| t == Fold(t) + 0xffff * k;
      assert s == Fold(s) + 0xffff * (k + s / U16);
    }
  }

  /** Congruent sums fold to the same word as soon as both are zero or both are not. */
  lemma FoldCongruent(s: nat, t: nat, q: int)
    requires s == t + 0xffff * q
    requires s == 0 <==> t == 0
    ensures Fold(s) == Fold(t)
  {
    FoldFacts(s);
    FoldFacts(t);
    var i: nat :| s == Fold(s) + 0xffff * i;
    var j: nat :| t == Fold(t) + 0xffff * j;
    var d := q + j - i;
    assert Fold(s) - Fold(t) == 0xffff * d;
    if d > 0 { assert Fold(t) == 0; }
    if d < 0 { assert Fold(s) == 0; }
  }

  /** Two folds are enough for every sum that fits 32 bits. */
  lemma TwoFolds(s: Word32)
    ensures var once := s % U16 + s / U16; once % U16 + once / U16 == Fold(s)
  {
    var once := s % U16 + s / U16;
    if s >= U16 {
      assert Fold(s) == Fold(once);
      if once >= U16 {
        assert once / U16 == 1;
        assert once % U16 < 0xffff;
      }
    }
  }

  // ------------------------------------------------------------------------------------------
  // Sums in host byte order
  // ------------------------------------------------------------------------------------------

  /** A 16-bit load in host byte order from two adjacent octets. */
  function NativeLoad(bigEndian: bool, b0: Byte, b1: Byte): Word16 {
    if bigEndian then 256 * b0 + b1 else b0 + 256 * b1
  }

  /** The two octets a 16-bit store in host byte order leaves in memory. */
  function NativeStore(bigEndian: bool, v: Word16): (s: seq<Byte>)
    ensures |s| == 2 && NativeLoad(bigEndian, s[0], s[1]) == v
  {
    if bigEndian then [v / 256, v % 256] else [v % 256, v / 256]
  }

  function NativeSum(bigEndian: bool, d: seq<Byte>): nat {
    if |d| == 0 then 0
    else if |d| == 1 then NativeLoad(bigEndian, d[0], 0)
    else NativeLoad(bigEndian, d[0], d[1]) + NativeSum(bigEndian, d[2..])
  }

  lemma {:induction false} NativeSumBound(bigEndian: bool, d: seq<Byte>)
    ensures 2 * NativeSum(bigEndian, d) <= 0xffff * (|d| + |d| % 2)
  {
    if |d| > 1 {
      NativeSumBound(bigEndian, d[2..]);
      assert NativeLoad(bigEndian, d[0], d[1]) <= 0xffff;
    }
  }

  lemma {:induction false} NativeSumConcat(bigEndian: bool, a: seq<Byte>, b: seq<Byte>)
    requires |a| % 2 == 0
    ensures NativeSum(bigEndian, a + b) == NativeSum(bigEndian, a) + NativeSum(bigEndian, b)
  {
    if |a| == 0 {
      assert a + b == b;
    } else {
      assert (a + b)[2..] == a[2..] + b;
      NativeSumConcat(bigEndian, a[2..], b);
    }
  }

  /** On a big-endian host the native sum is the reference sum. */
  lemma {:induction false} BigEndianSum(d: seq<Byte>)
    ensures NativeSum(true, d) == BeSum(d)
  {
    if |d| > 1 {
      BigEndianSum(d[2..]);
    }
  }

  lemma {:induction false} BeSumConcat(a: seq<Byte>, b: seq<Byte>)
    requires |a| % 2 == 0
    ensures BeSum(a + b) == BeSum(a) + BeSum(b)
  {
    BigEndianSum(a);
    BigEndianSum(b);
    BigEndianSum(a + b);
    NativeSumConcat(true, a, b);
  }

  function HighOctets(d: seq<Byte>): nat {
    if |d| < 2 then 0 else d[1] + HighOctets(d[2..])
  }

  /** Swapping the octets of every word multiplies the sum by 256 modulo 0xffff. */
  lemma {:induction false} LittleEndianSum(d: seq<Byte>)
    ensures 256 * NativeSum(false, d) == BeSum(d) + 0xffff * HighOctets(d)
    ensures NativeSum(false, d) == 0 <==> BeSum(d) == 0
  {
    if |d| > 1 {
      LittleEndianSum(d[2..]);
    }
  }

  function Swap16(v: Word16): Word16 {
    v % 256 * 256 + v / 256
  }

  lemma SwapFolds(n: nat, b: nat, h: nat)
    requires 256 * n == b + 0xffff * h
    requires n == 0 <==> b == 0
    ensures Fold(n) <= 0xffff
    ensures Swap16(Fold(n)) == Fold(b)
  {
    FoldFacts(n);
    var f := Fold(n);
    var k: nat :| n == f + 0xffff * k;
    assert 256 * f == Swap16(f) + 0xffff * (f / 256);
    FoldCongruent(b, Swap16(f), f / 256 + 256 * k - h);
  }

  lemma Octets16(v: nat, hi: Byte, lo: Byte)
    requires v == hi as int * 256 + lo as int
    ensures v / 256 == hi && v % 256 == lo && v < U16
  {
  }

  /** Complementing and storing little-endian is complementing the swapped word and storing it big-endian. */
  lemma ComplementSwaps(f: Word16)
    ensures Swap16(f) <= 0xffff
    ensures NativeStore(false, 0xffff - f) == Be16(0xffff - Swap16(f))
  {
    hide U16;
    var hi: Byte, lo: Byte := f / 256, f % 256;
    Octets16(Swap16(f), lo, hi);
    Octets16(0xffff - f, 255 - hi, 255 - lo);
    Octets16(0xffff - Swap16(f), 255 - lo, 255 - hi);
  }

  /** The complemented native sum, stored natively, is the big-endian checksum: RFC 1071 section 2 (B). */
  lemma ByteOrderIndependence(bigEndian: bool, d: seq<Byte>)
    ensures Fold(NativeSum(bigEndian, d)) <= 0xffff
    ensures NativeStore(bigEndian, 0xffff - Fold(NativeSum(bigEndian, d))) == Be16(InternetChecksum(d))
  {
    FoldFacts(NativeSum(bigEndian, d));
    if bigEndian {
      BigEndianSum(d);
      assert NativeSum(bigEndian, d) == BeSum(d);
    } else {
      LittleEndianSum(d);
      SwapFolds(NativeSum(false, d), BeSum(d), HighOctets(d));
      ComplementSwaps(Fold(NativeSum(false, d)));
    }
  }

  // ------------------------------------------------------------------------------------------
  // The program's routine: up to three parts, 32-bit accumulator, two folds
  // ------------------------------------------------------------------------------------------

  /** A (pointer, length) argument pair; only the parity of the address matters. */
  datatype Part = Null | Part(address: nat, octets: seq<Byte>) {
    function Octets(): seq<Byte> {
      if Null? then [] else octets
    }
  }

  /** What one call of the accumulation adds: the native sum, except that the branch for odd
      addresses adds a trailing octet unshifted on every host. */
  function PartSum(bigEndian: bool, address: nat, d: seq<Byte>): nat {
    if address % 2 == 1 && |d| % 2 == 1 then
      NativeSum(bigEndian, d[..|d| - 1]) + d[|d| - 1]
    else
      NativeSum(bigEndian, d)
  }

  lemma {:induction false} NativeSumSnoc(bigEndian: bool, d: seq<Byte>, i: nat)
    requires i <= |d|
    requires i % 2 == 0
    ensures i + 1 < |d| ==>
              NativeSum(bigEndian, d[..i + 2]) == NativeSum(bigEndian, d[..i]) + NativeLoad(bigEndian, d[i], d[i + 1])
    ensures i + 1 == |d| ==>
              NativeSum(bigEndian, d) == NativeSum(bigEndian, d[..i]) + NativeLoad(bigEndian, d[i], 0)
  {
    if i + 1 < |d| {
      assert d[..i + 2] == d[..i] + [d[i], d[i + 1]];
      NativeSumConcat(bigEndian, d[..i], [d[i], d[i + 1]]);
      assert [d[i], d[i + 1]][2..] == [];
    } else if i + 1 == |d| {
      assert d == d[..i] + [d[i]];
      NativeSumConcat(bigEndian, d[..i], [d[i]]);
    }
  }

  /** The 32-bit accumulator. */
  function Wrap32(x: nat): Word32 {
    x % U32
  }

  lemma SmallWraps(x: Word32)
    ensures Wrap32(x) == x
  {
  }

  lemma WrapAdd(total: nat, val: nat)
    ensures Wrap32(Wrap32(total) + val) == Wrap32(total + val)
  {
  }

  lemma PartSumCases(bigEndian: bool, address: nat, d: seq<Byte>)
    ensures address % 2 == 1 && |d| % 2 == 1 ==>
              PartSum(bigEndian, address, d) == NativeSum(bigEndian, d[..|d| - 1]) + d[|d| - 1]
    ensures address % 2 == 0 || |d| % 2 == 0 ==> PartSum(bigEndian, address, d) == NativeSum(bigEndian, d)
    ensures d == [] ==> PartSum(bigEndian, address, d) == 0
    ensures d[..0] == []
  {
  }

  method Accumulate(bigEndian: bool, address: nat, d: seq<Byte>, sum0: Word32) returns (sum: Word32)
    ensures sum == Wrap32(sum0 + PartSum(bigEndian, address, d))
  {
    hide Wrap32, NativeSum, PartSum;
    sum := sum0;
    SmallWraps(sum0);
    EmptySum(bigEndian);
    PartSumCases(bigEndian, address, d);
    if |d| == 0 {
      return;
    }
    var i := 0;
    if address % 2 == 1 {
      while |d| - i > 1
        invariant 0 <= i <= |d| && i % 2 == 0
        invariant sum == Wrap32(sum0 + NativeSum(bigEndian, d[..i]))
      {
        var val: int;
        if bigEndian {
          val := d[i] as int * 256;
          val := val + d[i + 1];
        } else {
          val := d[i];
          val := val + d[i + 1] as int * 256;
        }
        NativeSumSnoc(bigEndian, d, i);
        WrapAdd(sum0 + NativeSum(bigEndian, d[..i]), val);
        sum := Wrap32(sum + val);
        i := i + 2;
      }
      if |d| - i != 0 {
        WrapAdd(sum0 + NativeSum(bigEndian, d[..i]), d[i]);
        sum := Wrap32(sum + d[i]);
      } else {
        assert d[..i] == d;
      }
    } else {
      while |d| - i > 1
        invariant 0 <= i <= |d| && i % 2 == 0
        invariant sum == Wrap32(sum0 + NativeSum(bigEndian, d[..i]))
      {
        NativeSumSnoc(bigEndian, d, i);
        WrapAdd(sum0 + NativeSum(bigEndian, d[..i]), NativeLoad(bigEndian, d[i], d[i + 1]));
        sum := Wrap32(sum + NativeLoad(bigEndian, d[i], d[i + 1]));
        i := i + 2;
      }
      if |d| - i != 0 {
        var last: int := if bigEndian then d[i] as int * 256 else d[i] as int;
        NativeSumSnoc(bigEndian, d, i);
        WrapAdd(sum0 + NativeSum(bigEndian, d[..i]), last);
        sum := Wrap32(sum + last);
      } else {
        assert d[..i] == d;
      }
    }
  }

  method Finalize(sum0: Word32) returns (r: Word16)
    ensures Fold(sum0) <= 0xffff && r == 0xffff - Fold(sum0)
  {
    TwoFolds(sum0);
    FoldFacts(sum0);
    var sum := sum0;
    sum := sum % U16 + sum / U16;
    sum := sum % U16 + sum / U16;
    r := 0xffff - sum;
  }

  function PartsSum(bigEndian: bool, p: Part, p2: Part, p3: Part): nat {
    (if p.Part? then PartSum(bigEndian, p.address, p.octets) else 0)
    + (if p2.Part? then PartSum(bigEndian, p2.address, p2.octets) else 0)
    + (if p3.Part? then PartSum(bigEndian, p3.address, p3.octets) else 0)
  }

  /** The two octets of the result as the caller's 16-bit store leaves them in the packet. */
  function StoredResult(bigEndian: bool, p: Part, p2: Part, p3: Part): seq<Byte> {
    FoldFacts(Wrap32(PartsSum(bigEndian, p, p2, p3)));
    NativeStore(bigEndian, 0xffff - Fold(Wrap32(PartsSum(bigEndian, p, p2, p3))))
  }

  method Rfc1071(bigEndian: bool, p: Part, p2: Part, p3: Part) returns (r: Word16)
    requires !(|p3.Octets()| != 0 && |p.Octets()| % 2 == 1 && |p2.Octets()| % 2 == 1)
    ensures NativeStore(bigEndian, r) == StoredResult(bigEndian, p, p2, p3)
  {
    hide Wrap32, Fold, PartSum;
    var sum: Word32 := 0;
    SmallWraps(0);
    if p.Part? {
      sum := Accumulate(bigEndian, p.address, p.octets, sum);
    }
    ghost var first := if p.Part? then PartSum(bigEndian, p.address, p.octets) else 0;
    ghost var second := if p2.Part? then PartSum(bigEndian, p2.address, p2.octets) else 0;
    if p2.Part? {
      sum := Accumulate(bigEndian, p2.address, p2.octets, sum);
      WrapAdd(first, second);
    }
    if p3.Part? {
      sum := Accumulate(bigEndian, p3.address, p3.octets, sum);
      WrapAdd(first + second, PartSum(bigEndian, p3.address, p3.octets));
    }
    assert sum == Wrap32(PartsSum(bigEndian, p, p2, p3));
    r := Finalize(sum);
  }

  /** Only the last part in use has an odd length. */
  predicate OnlyLastOdd(n: nat, n2: nat, n3: nat) {
    && (n % 2 == 0 || n2 + n3 == 0)
    && (n2 % 2 == 0 || n3 == 0)
  }

  /** The big-endian build mishandles the last octet of a part of odd length at an odd address. */
  predicate MisreadsTail(bigEndian: bool, p: Part) {
    bigEndian && p.Part? && p.address % 2 == 1 && |p.octets| % 2 == 1
  }

  const MAX_SUMMED := 131074

  function Joined(p: Part, p2: Part, p3: Part): seq<Byte> {
    p.Octets() + p2.Octets() + p3.Octets()
  }

  lemma EmptySum(bigEndian: bool)
    ensures NativeSum(bigEndian, []) == 0
  {
  }

  lemma PartsSumIsNativeSum(bigEndian: bool, p: Part, p2: Part, p3: Part)
    requires OnlyLastOdd(|p.Octets()|, |p2.Octets()|, |p3.Octets()|)
    requires !MisreadsTail(bigEndian, p) && !MisreadsTail(bigEndian, p2) && !MisreadsTail(bigEndian, p3)
    ensures PartsSum(bigEndian, p, p2, p3) == NativeSum(bigEndian, Joined(p, p2, p3))
  {
    hide NativeSum, PartSum;
    assert NativeSum(bigEndian, []) == 0 by { EmptySum(bigEndian); }
    if p.Part? { PartSumIsNativeSum(bigEndian, p); }
    if p2.Part? { PartSumIsNativeSum(bigEndian, p2); }
    if p3.Part? { PartSumIsNativeSum(bigEndian, p3); }
    var a, b, c := p.Octets(), p2.Octets(), p3.Octets();
    if |a| % 2 == 1 {
      assert a + b + c == a;
      assert b == [] && c == [];
    } else if |b| % 2 == 1 {
      assert a + b + c == a + b;
      assert c == [];
      NativeSumConcat(bigEndian, a, b);
    } else {
      NativeSumConcat(bigEndian, a, b);
      NativeSumConcat(bigEndian, a + b, c);
    }
  }

  lemma PartSumIsNativeSum(bigEndian: bool, p: Part)
    requires p.Part? && !MisreadsTail(bigEndian, p)
    ensures PartSum(bigEndian, p.address, p.octets) == NativeSum(bigEndian, p.octets)
  {
    if p.address % 2 == 1 && |p.octets| % 2 == 1 {
      NativeSumSnoc(bigEndian, p.octets, |p.octets| - 1);
    }
  }

  /** Up to 131074 octets with only the last part odd, the stored octets are the RFC 1071 checksum of
      the concatenation, whatever the alignment of each part. */
  lemma StoredResultIsChecksum(bigEndian: bool, p: Part, p2: Part, p3: Part)
    requires OnlyLastOdd(|p.Octets()|, |p2.Octets()|, |p3.Octets()|)
    requires !MisreadsTail(bigEndian, p) && !MisreadsTail(bigEndian, p2) && !MisreadsTail(bigEndian, p3)
    requires |Joined(p, p2, p3)| <= MAX_SUMMED
    ensures StoredResult(bigEndian, p, p2, p3) == Be16(InternetChecksum(Joined(p, p2, p3)))
  {
    hide Fold, NativeStore, PartsSum, NativeSum, InternetChecksum, Be16;
    PartsSumIsNativeSum(bigEndian, p, p2, p3);
    NativeSumBound(bigEndian, Joined(p, p2, p3));
    SmallWraps(NativeSum(bigEndian, Joined(p, p2, p3)));
    ByteOrderIndependence(bigEndian, Joined(p, p2, p3));
  }

  /** A packet with its checksum in place verifies, also when an all-zero checksum is sent as all ones. */
  lemma ChecksumVerifies(a: seq<Byte>, b: seq<Byte>, c: Word16)
    requires |a| % 2 == 0
    requires var sum := InternetChecksum(a + [0, 0] + b); c == sum || (sum == 0 && c == 0xffff)
    ensures Verifies(a + Be16(c) + b)
  {
    hide Fold;
    var s := BeSum(a + [0, 0] + b);
    ReplaceWord(a, [0, 0], Be16(c), b);
    assert BeSum(a + Be16(c) + b) == s + c;
    FoldFacts(s);
    var k: nat :| s == Fold(s) + 0xffff * k;
    if c == 0xffff - Fold(s) {
      FoldCongruent(s + c, 0xffff, k);
    } else {
      assert Fold(s) == 0xffff;
      FoldCongruent(s + c, 0xffff, k + 1);
    }
    SmallFolds(0xffff);
  }

  lemma SmallFolds(s: Word16)
    ensures Fold(s) == s
  {
  }

  lemma ReplaceWord(a: seq<Byte>, old16: seq<Byte>, new16: seq<Byte>, b: seq<Byte>)
    requires |a| % 2 == 0 && |old16| == |new16| == 2
    ensures BeSum(a + new16 + b) == BeSum(a + old16 + b) + ReadBe16(new16) - ReadBe16(old16)
  {
    assert a + new16 + b == a + (new16 + b) && a + old16 + b == a + (old16 + b);
    BeSumConcat(a, new16 + b);
    BeSumConcat(a, old16 + b);
    BeSumConcat(new16, b);
    BeSumConcat(old16, b);
    WordSum(new16);
    WordSum(old16);
  }

  lemma WordSum(w: seq<Byte>)
    requires |w| == 2
    ensures BeSum(w) == ReadBe16(w)
  {
    assert w[2..] == [];
  }

  // ------------------------------------------------------------------------------------------
  // Exactly when the routine is right
  // ------------------------------------------------------------------------------------------

  /** For every content of parts with the given addresses and lengths. */
  ghost predicate AlwaysRight(bigEndian: bool, a: nat, n: nat, a2: nat, n2: nat, a3: nat, n3: nat) {
    forall d: seq<Byte>, d2: seq<Byte>, d3: seq<Byte> | |d| == n && |d2| == n2 && |d3| == n3 ::
      StoredResult(bigEndian, Part(a, d), Part(a2, d2), Part(a3, d3)) == Be16(InternetChecksum(d + d2 + d3))
  }

  lemma {:induction false} ZerosSum(bigEndian: bool, n: nat)
    ensures NativeSum(bigEndian, Zeros(n)) == 0
  {
    if n > 1 {
      assert Zeros(n)[2..] == Zeros(n - 2);
      ZerosSum(bigEndian, n - 2);
    }
  }

  /** The sum of a message that is zero except for one octet of value 1. */
  lemma SingleOneSum(bigEndian: bool, before: nat, after: nat)
    ensures NativeSum(bigEndian, Zeros(before) + [1] + Zeros(after))
            == if bigEndian == (before % 2 == 0) then 256 else 1
  {
    var d := Zeros(before) + [1] + Zeros(after);
    if before % 2 == 0 {
      ZerosSum(bigEndian, before);
      var t: seq<Byte> := [1] + Zeros(after);
      assert d == Zeros(before) + t;
      NativeSumConcat(bigEndian, Zeros(before), t);
      if after > 0 {
        assert t[2..] == Zeros(after - 1);
        ZerosSum(bigEndian, after - 1);
      }
    } else {
      ZerosSum(bigEndian, before - 1);
      var t: seq<Byte> := [0, 1] + Zeros(after);
      assert d == Zeros(before - 1) + t;
      NativeSumConcat(bigEndian, Zeros(before - 1), t);
      assert t[2..] == Zeros(after);
      ZerosSum(bigEndian, after);
    }
  }

  /** One misplaced octet is enough to get a wrong checksum. */
  lemma DifferentSums(bigEndian: bool, got: nat, d: seq<Byte>)
    requires Fold(got) != Fold(NativeSum(bigEndian, d))
    ensures Fold(got) <= 0xffff
    ensures NativeStore(bigEndian, 0xffff - Fold(got)) != Be16(InternetChecksum(d))
  {
    FoldFacts(got);
    ByteOrderIndependence(bigEndian, d);
  }

  /** A part on its own: all zero, or starting with a one. */
  lemma SparsePart(address: nat, k: nat)
    ensures PartSum(false, address, Zeros(k)) == 0
    ensures PartSum(false, address, [1] + Zeros(k)) == 1
  {
    PartSumIsNativeSum(false, Part(address, Zeros(k)));
    PartSumIsNativeSum(false, Part(address, [1] + Zeros(k)));
    ZerosSum(false, k);
    SingleOneSum(false, 0, k);
    assert Zeros(0) + [1] + Zeros(k) == [1] + Zeros(k);
  }

  /** A one that opens its part counts 1, but 256 at an odd position of the message. */
  lemma ShiftedOne(p: Part, p2: Part, p3: Part, before: nat, after: nat)
    requires before % 2 == 1
    requires Joined(p, p2, p3) == Zeros(before) + [1] + Zeros(after)
    requires PartsSum(false, p, p2, p3) == 1
    ensures StoredResult(false, p, p2, p3) != Be16(InternetChecksum(Joined(p, p2, p3)))
  {
    SingleOneSum(false, before, after);
    SmallWraps(1);
    DifferentSums(false, 1, Joined(p, p2, p3));
  }

  lemma OddPartBreaks(a: nat, n: nat, a2: nat, n2: nat, a3: nat, n3: nat)
    requires !OnlyLastOdd(n, n2, n3)
    ensures !AlwaysRight(false, a, n, a2, n2, a3, n3)
  {
    hide PartSum, StoredResult, InternetChecksum, Be16;
    var d := Zeros(n);
    var d2, d3, before;
    if n % 2 == 1 && n2 > 0 {
      d2, d3, before := [1] + Zeros(n2 - 1), Zeros(n3), n;
      SparsePart(a2, n2 - 1);
      SparsePart(a3, n3);
    } else {
      d2, d3, before := Zeros(n2), [1] + Zeros(n3 - 1), n + n2;
      SparsePart(a2, n2);
      SparsePart(a3, n3 - 1);
    }
    SparsePart(a, n);
    var after := n + n2 + n3 - before - 1;
    assert d + d2 + d3 == Zeros(before) + [1] + Zeros(after);
    ShiftedOne(Part(a, d), Part(a2, d2), Part(a3, d3), before, after);
  }

  lemma {:induction false} AllOnesSum(bigEndian: bool, n: nat)
    requires n % 2 == 0
    ensures NativeSum(bigEndian, seq(n, _ => 255)) == 0xffff * (n / 2)
  {
    if n > 1 {
      assert (seq(n, _ => 255 as Byte))[2..] == seq(n - 2, _ => 255);
      AllOnesSum(bigEndian, n - 2);
    }
  }

  function Overlong(n: nat): (t: seq<Byte>)
    requires n > MAX_SUMMED
    ensures |t| == n
  {
    seq(MAX_SUMMED, _ => 255) + (Zeros(0) + [1] + Zeros(n - MAX_SUMMED - 1))
  }

  lemma OverlongSum(bigEndian: bool, n: nat)
    requires n > MAX_SUMMED
    ensures NativeSum(bigEndian, Overlong(n)) == U32 - 1 + if bigEndian then 256 else 1
  {
    AllOnesSum(bigEndian, MAX_SUMMED);
    SingleOneSum(bigEndian, 0, n - MAX_SUMMED - 1);
    NativeSumConcat(bigEndian, seq(MAX_SUMMED, _ => 255), Zeros(0) + [1] + Zeros(n - MAX_SUMMED - 1));
  }

  lemma LostCarry(carry: nat)
    requires carry == 1 || carry == 256
    ensures Wrap32(U32 - 1 + carry) == carry - 1
    ensures Fold(U32 - 1 + carry) == carry
    ensures Fold(carry - 1) == carry - 1
  {
    assert (U32 - 1 + carry) % U16 == carry - 1;
    assert (U32 - 1 + carry) / U16 == U16;
    var once := carry - 1 + U16;
    assert Fold(U32 - 1 + carry) == Fold(once);
    assert once % U16 == carry - 1 && once / U16 == 1;
    assert Fold(once) == Fold(carry);
    SmallFolds(carry);
    SmallFolds(carry - 1);
  }

  /** 131075 octets can make the 32-bit accumulator lose a carry. */
  lemma LongMessageBreaks(a: nat, n: nat, a2: nat, n2: nat, a3: nat, n3: nat)
    requires OnlyLastOdd(n, n2, n3)
    requires n + n2 + n3 > MAX_SUMMED
    ensures !AlwaysRight(false, a, n, a2, n2, a3, n3)
  {
    hide *;
    var t := Overlong(n + n2 + n3);
    OverlongSum(false, n + n2 + n3);
    LostCarry(1);
    OverlongBreaks(a, n, a2, n2, a3, n3, t);
  }

  lemma WrongSumBreaks(bigEndian: bool, a: nat, d: seq<Byte>, a2: nat, d2: seq<Byte>, a3: nat, d3: seq<Byte>)
    requires Fold(Wrap32(PartsSum(bigEndian, Part(a, d), Part(a2, d2), Part(a3, d3)))) != Fold(NativeSum(bigEndian, d + d2 + d3))
    ensures !AlwaysRight(bigEndian, a, |d|, a2, |d2|, a3, |d3|)
  {
    hide NativeSum, PartsSum, Wrap32, Fold, InternetChecksum, Be16, NativeStore;
    DifferentSums(bigEndian, Wrap32(PartsSum(bigEndian, Part(a, d), Part(a2, d2), Part(a3, d3))), d + d2 + d3);
    assert StoredResult(bigEndian, Part(a, d), Part(a2, d2), Part(a3, d3)) != Be16(InternetChecksum(d + d2 + d3));
  }

  lemma CutInThree(t: seq<Byte>, n: nat, n2: nat)
    requires n + n2 <= |t|
    ensures t[..n] + t[n..n + n2] + t[n + n2..] == t
  {
  }

  lemma OverlongBreaks(a: nat, n: nat, a2: nat, n2: nat, a3: nat, n3: nat, t: seq<Byte>)
    requires OnlyLastOdd(n, n2, n3) && |t| == n + n2 + n3
    requires NativeSum(false, t) == U32 - 1 + 1 && Wrap32(U32 - 1 + 1) == 0 && Fold(U32 - 1 + 1) == 1 && Fold(0) == 0
    ensures !AlwaysRight(false, a, n, a2, n2, a3, n3)
  {
    hide NativeSum, PartsSum, Wrap32, Fold, OnlyLastOdd, AlwaysRight;
    var d, d2, d3 := t[..n], t[n..n + n2], t[n + n2..];
    CutInThree(t, n, n2);
    PartsSumIsNativeSum(false, Part(a, d), Part(a2, d2), Part(a3, d3));
    WrongSumBreaks(false, a, d, a2, d2, a3, d3);
  }

  /** On a little-endian host the routine is right for all contents exactly when no part before the last
      one in use is odd and the parts total at most 131074 octets. The run-time assertion in the routine
      rejects less than that. */
  lemma RightExactlyWhen(a: nat, n: nat, a2: nat, n2: nat, a3: nat, n3: nat)
    ensures AlwaysRight(false, a, n, a2, n2, a3, n3)
        <==> OnlyLastOdd(n, n2, n3) && n + n2 + n3 <= MAX_SUMMED
  {
    if !OnlyLastOdd(n, n2, n3) {
      OddPartBreaks(a, n, a2, n2, a3, n3);
    } else if n + n2 + n3 > MAX_SUMMED {
      LongMessageBreaks(a, n, a2, n2, a3, n3);
    } else {
      forall d: seq<Byte>, d2: seq<Byte>, d3: seq<Byte> | |d| == n && |d2| == n2 && |d3| == n3
        ensures StoredResult(false, Part(a, d), Part(a2, d2), Part(a3, d3)) == Be16(InternetChecksum(d + d2 + d3))
      {
        StoredResultIsChecksum(false, Part(a, d), Part(a2, d2), Part(a3, d3));
      }
    }
  }

  // ------------------------------------------------------------------------------------------
  // The same on big-endian hosts
  // ------------------------------------------------------------------------------------------

  /** The sum of what stands at an odd position of a message. */
  function ShiftedSum(d: seq<Byte>): nat {
    if d == [] then 0 else d[0] + NativeSum(true, d[1..])
  }

  lemma {:induction false} SumBehind(a: seq<Byte>, b: seq<Byte>)
    ensures NativeSum(true, a + b) == NativeSum(true, a) + if |a| % 2 == 0 then NativeSum(true, b) else ShiftedSum(b)
  {
    if |a| == 0 {
      assert a + b == b;
    } else if |a| == 1 {
      if b == [] {
        assert a + b == a;
      } else {
        assert (a + b)[2..] == b[1..];
      }
    } else {
      assert (a + b)[2..] == a[2..] + b;
      SumBehind(a[2..], b);
    }
  }

  /** A part at an even position must not be misread; at an odd position it is only right when it is empty, or
      a single octet at an odd address, which is then misread into the right place. */
  predicate PlacedRight(oddPosition: bool, address: nat, n: nat) {
    if oddPosition then n == 0 || (n == 1 && address % 2 == 1)
    else !(address % 2 == 1 && n % 2 == 1)
  }

  predicate AllPlacedRight(a: nat, n: nat, a2: nat, n2: nat, a3: nat, n3: nat) {
    PlacedRight(false, a, n) && PlacedRight(n % 2 == 1, a2, n2) && PlacedRight((n + n2) % 2 == 1, a3, n3)
  }

  lemma PlacedPart(oddPosition: bool, address: nat, d: seq<Byte>)
    requires PlacedRight(oddPosition, address, |d|)
    ensures PartSum(true, address, d) == if oddPosition then ShiftedSum(d) else NativeSum(true, d)
  {
    if |d| == 1 {
      assert d[..0] == [] && d[1..] == [];
    }
  }

  lemma PlacedSum(a: nat, d: seq<Byte>, a2: nat, d2: seq<Byte>, a3: nat, d3: seq<Byte>)
    requires AllPlacedRight(a, |d|, a2, |d2|, a3, |d3|)
    ensures PartsSum(true, Part(a, d), Part(a2, d2), Part(a3, d3)) == NativeSum(true, d + d2 + d3)
  {
    hide NativeSum, ShiftedSum, PartSum;
    PlacedPart(false, a, d);
    PlacedPart(|d| % 2 == 1, a2, d2);
    PlacedPart((|d| + |d2|) % 2 == 1, a3, d3);
    SumBehind(d, d2);
    SumBehind(d + d2, d3);
  }

  /** Which octet of a misplaced part counts wrong. */
  function MisplacedAt(oddPosition: bool, n: nat): nat {
    if oddPosition || n == 0 then 0 else n - 1
  }

  function OneAt(i: nat, n: nat): (d: seq<Byte>)
    requires i < n
    ensures |d| == n
  {
    Zeros(i) + [1] + Zeros(n - 1 - i)
  }

  lemma MisplacedPart(oddPosition: bool, address: nat, n: nat)
    requires !PlacedRight(oddPosition, address, n)
    ensures var i := MisplacedAt(oddPosition, n);
            i < n && i % 2 == 0 && PartSum(true, address, OneAt(i, n)) == if oddPosition then 256 else 1
  {
    hide NativeSum;
    var i := MisplacedAt(oddPosition, n);
    var d := OneAt(i, n);
    SingleOneSum(true, i, n - 1 - i);
    if address % 2 == 1 && n % 2 == 1 {
      if oddPosition {
        assert d[..n - 1] == Zeros(0) + [1] + Zeros(n - 2) && d[n - 1] == 0;
        SingleOneSum(true, 0, n - 2);
      } else {
        assert d[..n - 1] == Zeros(n - 1) && d[n - 1] == 1;
        ZerosSum(true, n - 1);
      }
    }
  }

  lemma ZeroPart(address: nat, n: nat)
    ensures PartSum(true, address, Zeros(n)) == 0
  {
    hide NativeSum;
    ZerosSum(true, n);
    if n > 0 {
      assert Zeros(n)[..n - 1] == Zeros(n - 1);
      ZerosSum(true, n - 1);
    }
  }

  /** One octet that counts at the wrong place. */
  lemma MisplacedOne(p: Part, p2: Part, p3: Part, before: nat, after: nat)
    requires Joined(p, p2, p3) == Zeros(before) + [1] + Zeros(after)
    requires PartsSum(true, p, p2, p3) == if before % 2 == 1 then 256 else 1
    ensures StoredResult(true, p, p2, p3) != Be16(InternetChecksum(Joined(p, p2, p3)))
  {
    hide NativeSum, InternetChecksum, Be16, NativeStore, PartsSum, Joined;
    SingleOneSum(true, before, after);
    SmallFolds(1);
    SmallFolds(256);
    SmallWraps(PartsSum(true, p, p2, p3));
    DifferentSums(true, PartsSum(true, p, p2, p3), Joined(p, p2, p3));
  }

  lemma MisplacedPartBreaks(a: nat, n: nat, a2: nat, n2: nat, a3: nat, n3: nat)
    requires !AllPlacedRight(a, n, a2, n2, a3, n3)
    ensures !AlwaysRight(true, a, n, a2, n2, a3, n3)
  {
    hide AlwaysRight, PlacedRight;
    if !PlacedRight(false, a, n) {
      FirstPartBreaks(a, n, a2, n2, a3, n3);
    } else if !PlacedRight(n % 2 == 1, a2, n2) {
      SecondPartBreaks(a, n, a2, n2, a3, n3);
    } else {
      ThirdPartBreaks(a, n, a2, n2, a3, n3);
    }
  }

  lemma FirstPartBreaks(a: nat, n: nat, a2: nat, n2: nat, a3: nat, n3: nat)
    requires !PlacedRight(false, a, n)
    ensures !AlwaysRight(true, a, n, a2, n2, a3, n3)
  {
    hide PartSum, StoredResult, InternetChecksum, Be16, PlacedRight;
    MisplacedPart(false, a, n);
    ZeroPart(a2, n2);
    ZeroPart(a3, n3);
    var before := MisplacedAt(false, n);
    var after := n + n2 + n3 - before - 1;
    assert OneAt(before, n) + Zeros(n2) + Zeros(n3) == Zeros(before) + [1] + Zeros(after);
    MisplacedOne(Part(a, OneAt(before, n)), Part(a2, Zeros(n2)), Part(a3, Zeros(n3)), before, after);
  }

  lemma SecondPartBreaks(a: nat, n: nat, a2: nat, n2: nat, a3: nat, n3: nat)
    requires !PlacedRight(n % 2 == 1, a2, n2)
    ensures !AlwaysRight(true, a, n, a2, n2, a3, n3)
  {
    hide PartSum, StoredResult, InternetChecksum, Be16, PlacedRight, MisplacedAt;
    ZeroPart(a, n);
    MisplacedPart(n % 2 == 1, a2, n2);
    ZeroPart(a3, n3);
    var i := MisplacedAt(n % 2 == 1, n2);
    var after := n2 + n3 - i - 1;
    assert Zeros(n) + OneAt(i, n2) + Zeros(n3) == Zeros(n + i) + [1] + Zeros(after);
    MisplacedOne(Part(a, Zeros(n)), Part(a2, OneAt(i, n2)), Part(a3, Zeros(n3)), n + i, after);
  }

  lemma ThirdPartBreaks(a: nat, n: nat, a2: nat, n2: nat, a3: nat, n3: nat)
    requires !PlacedRight((n + n2) % 2 == 1, a3, n3)
    ensures !AlwaysRight(true, a, n, a2, n2, a3, n3)
  {
    hide PartSum, StoredResult, InternetChecksum, Be16, PlacedRight, MisplacedAt;
    ZeroPart(a, n);
    ZeroPart(a2, n2);
    MisplacedPart((n + n2) % 2 == 1, a3, n3);
    var i := MisplacedAt((n + n2) % 2 == 1, n3);
    assert Zeros(n) + Zeros(n2) + OneAt(i, n3) == Zeros(n + n2 + i) + [1] + Zeros(n3 - i - 1);
    MisplacedOne(Part(a, Zeros(n)), Part(a2, Zeros(n2)), Part(a3, OneAt(i, n3)), n + n2 + i, n3 - i - 1);
  }

  lemma BigEndianLongMessageBreaks(a: nat, n: nat, a2: nat, n2: nat, a3: nat, n3: nat)
    requires AllPlacedRight(a, n, a2, n2, a3, n3) && n + n2 + n3 > MAX_SUMMED
    ensures !AlwaysRight(true, a, n, a2, n2, a3, n3)
  {
    hide NativeSum, PartsSum, Wrap32, Fold, AllPlacedRight, Overlong, AlwaysRight;
    var t := Overlong(n + n2 + n3);
    OverlongSum(true, n + n2 + n3);
    LostCarry(256);
    var d, d2, d3 := t[..n], t[n..n + n2], t[n + n2..];
    CutInThree(t, n, n2);
    PlacedSum(a, d, a2, d2, a3, d3);
    WrongSumBreaks(true, a, d, a2, d2, a3, d3);
  }

  /** On a big-endian host the routine is right for all contents exactly when every part is placed right and
      the parts total at most 131074 octets. */
  lemma BigEndianRightExactlyWhen(a: nat, n: nat, a2: nat, n2: nat, a3: nat, n3: nat)
    ensures AlwaysRight(true, a, n, a2, n2, a3, n3)
        <==> AllPlacedRight(a, n, a2, n2, a3, n3) && n + n2 + n3 <= MAX_SUMMED
  {
    hide AllPlacedRight, PartsSum, NativeSum, InternetChecksum, Be16, NativeStore, Fold;
    if !AllPlacedRight(a, n, a2, n2, a3, n3) {
      MisplacedPartBreaks(a, n, a2, n2, a3, n3);
    } else if n + n2 + n3 > MAX_SUMMED {
      BigEndianLongMessageBreaks(a, n, a2, n2, a3, n3);
    } else {
      forall d: seq<Byte>, d2: seq<Byte>, d3: seq<Byte> | |d| == n && |d2| == n2 && |d3| == n3
        ensures StoredResult(true, Part(a, d), Part(a2, d2), Part(a3, d3)) == Be16(InternetChecksum(d + d2 + d3))
      {
        PlacedSum(a, d, a2, d2, a3, d3);
        NativeSumBound(true, d + d2 + d3);
        SmallWraps(NativeSum(true, d + d2 + d3));
        ByteOrderIndependence(true, d + d2 + d3);
      }
    }
  }

  // ------------------------------------------------------------------------------------------
  // What a misread last octet costs
  // ------------------------------------------------------------------------------------------

  /** How much too small the sum is when the last part in use is misread. */
  function LostSum(bigEndian: bool, p: Part): nat {
    if MisreadsTail(bigEndian, p) then 255 * p.octets[|p.octets| - 1] as int else 0
  }

  lemma LostSumZero(bigEndian: bool, p: Part)
    ensures LostSum(bigEndian, p) % 0xffff == 0 <==> LostSum(bigEndian, p) == 0
    ensures LostSum(bigEndian, p) == 0 <==> !MisreadsTail(bigEndian, p) || p.octets[|p.octets| - 1] == 0
  {
  }

  /** Two parts of even length, and a third one anywhere. */
  lemma LostFromSum(bigEndian: bool, p: Part, p2: Part, p3: Part)
    requires |p.Octets()| % 2 == 0 && |p2.Octets()| % 2 == 0
    ensures PartsSum(bigEndian, p, p2, p3) + LostSum(bigEndian, p3) == NativeSum(bigEndian, Joined(p, p2, p3))
  {
    hide NativeSum, PartSum, LostSum, MisreadsTail;
    EmptySum(bigEndian);
    if p.Part? { EvenPart(bigEndian, p); }
    if p2.Part? { EvenPart(bigEndian, p2); }
    TailLoss(bigEndian, p3);
    NativeSumConcat(bigEndian, p.Octets(), p2.Octets());
    NativeSumConcat(bigEndian, p.Octets() + p2.Octets(), p3.Octets());
  }

  lemma EvenPart(bigEndian: bool, p: Part)
    requires |p.Octets()| % 2 == 0 && p.Part?
    ensures PartSum(bigEndian, p.address, p.octets) == NativeSum(bigEndian, p.octets)
  {
  }

  lemma TailLoss(bigEndian: bool, p: Part)
    ensures (if p.Part? then PartSum(bigEndian, p.address, p.octets) else 0) + LostSum(bigEndian, p)
            == NativeSum(bigEndian, p.Octets())
  {
    hide NativeSum;
    if p.Null? {
      EmptySum(bigEndian);
    } else if MisreadsTail(bigEndian, p) {
      NativeSumSnoc(bigEndian, p.octets, |p.octets| - 1);
    } else {
      PartSumIsNativeSum(bigEndian, p);
    }
  }

  lemma LossBounded(bigEndian: bool, before: seq<Byte>, p: Part)
    requires |before| % 2 == 0
    ensures LostSum(bigEndian, p) <= BeSum(before + p.Octets())
  {
    hide NativeSum, PartSum;
    if LostSum(bigEndian, p) > 0 {
      LostFromSum(true, Part(0, before), Null, p);
      BigEndianSum(before + p.Octets());
      assert Joined(Part(0, before), Null, p) == before + p.Octets();
    }
  }

  /** The stored octets are the checksum of the true sum less what was lost. */
  lemma StoredResultWithLoss(bigEndian: bool, p: Part, p2: Part, p3: Part)
    requires |p.Octets()| % 2 == 0 && |p2.Octets()| % 2 == 0 && |Joined(p, p2, p3)| <= MAX_SUMMED
    ensures var s := BeSum(Joined(p, p2, p3));
            && LostSum(bigEndian, p3) <= s && Fold(s - LostSum(bigEndian, p3)) <= 0xffff
            && StoredResult(bigEndian, p, p2, p3) == Be16(0xffff - Fold(s - LostSum(bigEndian, p3)))
  {
    hide NativeSum, PartsSum, NativeStore, Be16, Fold;
    var d := Joined(p, p2, p3);
    LostFromSum(bigEndian, p, p2, p3);
    if LostSum(bigEndian, p3) == 0 {
      NativeSumBound(bigEndian, d);
      SmallWraps(NativeSum(bigEndian, d));
      ByteOrderIndependence(bigEndian, d);
      assert BeSum(d) - 0 == BeSum(d);
    } else {
      NativeSumBound(true, d);
      SmallWraps(PartsSum(true, p, p2, p3));
      BigEndianSum(d);
      FoldFacts(PartsSum(true, p, p2, p3));
      BigEndianStore(0xffff - Fold(PartsSum(true, p, p2, p3)));
    }
  }

  lemma BigEndianStore(v: Word16)
    ensures NativeStore(true, v) == Be16(v)
  {
  }

  /** A packet whose checksum was computed from a sum that lost something verifies exactly when what was lost
      does not count. */
  lemma VerifiesExactlyWhen(a: seq<Byte>, b: seq<Byte>, lost: nat, c: Word16)
    requires |a| % 2 == 0 && lost <= BeSum(a + [0, 0] + b)
    requires var f := Fold(BeSum(a + [0, 0] + b) - lost);
             f <= 0xffff && c == if f == 0xffff then 0xffff else 0xffff - f
    ensures Verifies(a + Be16(c) + b) <==> lost % 0xffff == 0
  {
    hide Fold, BeSum, Be16;
    var s := BeSum(a + [0, 0] + b);
    ReplaceWord(a, [0, 0], Be16(c), b);
    assert BeSum(a + Be16(c) + b) == s + c;
    FoldFacts(s - lost);
    FoldFacts(s + c);
    var k: nat :| s - lost == Fold(s - lost) + 0xffff * k;
    var m: nat :| s + c == Fold(s + c) + 0xffff * m;
    var f := Fold(s - lost);
    var h := if f == 0xffff then 2 else 1;
    assert s + c == lost + 0xffff * (k + h);
    AllOnes(Fold(s + c), lost, k + h - m);
  }

  lemma AllOnes(f: nat, lost: nat, q: int)
    requires 0 < f <= 0xffff && f == lost + 0xffff * q
    ensures f == 0xffff <==> lost % 0xffff == 0
  {
  }
}
