/** Incremental MD5 against the one-shot definition of RFC 1321. */
module Md5 {
  import opened Bytes
  import opened Md5Rounds

  // ------------------------------------------------------------------------------------------
  // RFC 1321, sections 3.1 to 3.5
  // ------------------------------------------------------------------------------------------

  const INITIAL := State(0x67452301, 0xefcdab89, 0x98badcfe, 0x10325476)

  /** Word n of a block, least significant octet first. */
  function WordAt(block: seq<Byte>, n: nat): Word32
    requires 4 * n + 4 <= |block|
  {
    block[4 * n] + 0x100 * block[4 * n + 1] as int + 0x10000 * block[4 * n + 2] as int
    + 0x1000000 * block[4 * n + 3] as int
  }

  function Words(block: seq<Byte>): (x: seq<Word32>)
    requires |block| == 64
    ensures |x| == 16
  {
    seq(16, n requires 0 <= n < 16 => WordAt(block, n))
  }

  function Added(s: State, t: State): State {
    State(Plus(s.a, t.a), Plus(s.b, t.b), Plus(s.c, t.c), Plus(s.d, t.d))
  }

  function Compress(s: State, block: seq<Byte>): State
    requires |block| == 64
  {
    Added(Operations(0, 64, s, Words(block)), s)
  }

  /** Compresses all complete blocks. */
  function Compressed(s: State, data: seq<Byte>): State
    decreases |data|
  {
    if |data| < 64 then s else Compressed(Compress(s, data[..64]), data[64..])
  }

  /** Section 3.1: pad until 8 octets are missing to a multiple of 64. */
  function ZeroCount(length: nat): nat {
    (119 - length % 64) % 64
  }

  function Le32(v: Word32): (s: seq<Byte>)
    ensures |s| == 4
  {
    [v % 0x100, v / 0x100 % 0x100, v / 0x10000 % 0x100, v / 0x1000000]
  }

  /** Section 3.2: the number of bits modulo 2^64, low-order word first. */
  function BitCount(length: nat): (s: seq<Byte>)
    ensures |s| == 8
  {
    Le32(8 * length % U32) + Le32(8 * length / U32 % U32)
  }

  function Padding(length: nat): (s: seq<Byte>)
    ensures |s| == 9 + ZeroCount(length)
  {
    [0x80] + Zeros(ZeroCount(length)) + BitCount(length)
  }

  /** Section 3.5: the four words, each with its low-order octet first. */
  function StateOctets(s: State): (o: seq<Byte>)
    ensures |o| == 16
  {
    Le32(s.a) + Le32(s.b) + Le32(s.c) + Le32(s.d)
  }

  function Digest(message: seq<Byte>): seq<Byte> {
    StateOctets(Compressed(INITIAL, message + Padding(|message|)))
  }

  lemma ZerosToBoundary(length: nat, zeros: nat)
    requires zeros < 64
    ensures (length + 9 + zeros) % 64 == 0 <==> zeros == ZeroCount(length)
  {
  }

  lemma Le32Digits(v: Word32, a: Byte, b: Byte, c: Byte, d: Byte)
    requires v == a as int + 0x100 * b as int + 0x10000 * c as int + 0x1000000 * d as int
    ensures Le32(v) == [a, b, c, d]
  {
    assert v / 0x1000000 == d && v / 0x10000 == 0x100 * d as int + c as int;
    assert v / 0x100 == 0x100 * (0x100 * d as int + c as int) + b as int;
  }

  /** A word has its low-order octet first, as section 2 of RFC 1321 has it. */
  lemma WordRead(block: seq<Byte>, n: nat)
    requires 4 * n + 4 <= |block|
    ensures Le32(WordAt(block, n)) == block[4 * n..4 * n + 4]
  {
    Le32Digits(WordAt(block, n), block[4 * n], block[4 * n + 1], block[4 * n + 2], block[4 * n + 3]);
  }

  /** The registers start as section 3.3 of RFC 1321 lists them, low-order octets first. */
  lemma InitialOctets()
    ensures StateOctets(INITIAL) == [0x01, 0x23, 0x45, 0x67, 0x89, 0xab, 0xcd, 0xef,
                                     0xfe, 0xdc, 0xba, 0x98, 0x76, 0x54, 0x32, 0x10]
  {
    hide Le32;
    Le32Digits(0x67452301, 0x01, 0x23, 0x45, 0x67);
    Le32Digits(0xefcdab89, 0x89, 0xab, 0xcd, 0xef);
    Le32Digits(0x98badcfe, 0xfe, 0xdc, 0xba, 0x98);
    Le32Digits(0x10325476, 0x76, 0x54, 0x32, 0x10);
  }

  /** The padding is the shortest one that fills the last block. */
  lemma PaddingIsLeast(length: nat, zeros: nat)
    ensures (length + |Padding(length)|) % 64 == 0
    ensures (length + 9 + zeros) % 64 == 0 ==> ZeroCount(length) <= zeros
  {
    hide Padding;
    ZerosToBoundary(length, ZeroCount(length));
    if zeros < 64 {
      ZerosToBoundary(length, zeros);
    }
  }

  // ------------------------------------------------------------------------------------------
  // Blocks
  // ------------------------------------------------------------------------------------------

  /** Blocks can be compressed in any portions that end at block boundaries. */
  lemma {:induction false} CompressedConcat(s: State, a: seq<Byte>, b: seq<Byte>)
    requires |a| % 64 == 0
    ensures Compressed(s, a + b) == Compressed(Compressed(s, a), b)
    decreases |a|
  {
    hide Compress;
    if a == [] {
      assert a + b == b;
    } else {
      assert |a| >= 64;
      assert (a + b)[..64] == a[..64] && (a + b)[64..] == a[64..] + b;
      CompressedConcat(Compress(s, a[..64]), a[64..], b);
    }
  }

  lemma OneBlock(s: State, block: seq<Byte>)
    requires |block| == 64
    ensures Compressed(s, block) == Compress(s, block)
  {
    hide Compress;
    assert block[..64] == block && block[64..] == [];
  }

  lemma NextBlock(s: State, data: seq<Byte>, at: nat)
    requires at % 64 == 0 && at + 64 <= |data|
    ensures Compressed(s, data[..at + 64]) == Compress(Compressed(s, data[..at]), data[at..at + 64])
  {
    hide Compress;
    assert data[..at + 64] == data[..at] + data[at..at + 64];
    CompressedConcat(s, data[..at], data[at..at + 64]);
    OneBlock(Compressed(s, data[..at]), data[at..at + 64]);
  }

  // ------------------------------------------------------------------------------------------
  // The counter
  // ------------------------------------------------------------------------------------------

  const U29 := 0x2000_0000
  const U61 := 0x2000_0000_0000_0000

  /** The octets seen so far modulo 2^61: 29 bits in lo, 32 in hi. */
  predicate Counts(lo: Word32, hi: Word32, length: nat) {
    lo < U29 && lo + U29 * hi == length % U61
  }

  lemma WrapsAgree(u: nat, v: nat)
    ensures (u % U32 + v % U32) % U32 == (u + v) % U32
  {
  }

  /** A sum below the old low part means a carry; further carries are the size divided by 2^29. */
  lemma CounterAdvances(lo: Word32, hi: Word32, length: nat, size: nat)
    requires Counts(lo, hi, length)
    ensures var lo' := (lo + size) % U29;
            var hi' := ((if lo' < lo then (hi + 1) % U32 else hi) + size / U29 % U32) % U32;
            Counts(lo', hi', length + size)
  {
    var q, r := size / U29, size % U29;
    var lo' := (lo + size) % U29;
    var carry := if lo' < lo then 1 else 0;
    assert lo + r == lo' + U29 * carry;
    var h := hi + carry + q;
    WrapsAgree(hi + carry, q);
    var k := length / U61;
    assert length + size == U61 * k + lo' + U29 * h;
    assert h == U32 * (h / U32) + h % U32;
    assert length + size == U61 * (k + h / U32) + (lo' + U29 * (h % U32));
    Remainder61(length + size, k + h / U32, lo' + U29 * (h % U32));
  }

  lemma Remainder61(n: nat, k: nat, r: nat)
    requires n == 0x2000_0000_0000_0000 * k + r && r < 0x2000_0000_0000_0000
    ensures n % 0x2000_0000_0000_0000 == r
  {
  }

  lemma Remainder32(n: nat, k: nat, r: nat)
    requires n == 0x1_0000_0000 * k + r && r < 0x1_0000_0000
    ensures n % 0x1_0000_0000 == r && n / 0x1_0000_0000 == k
  {
  }

  /** The counter times eight, cut into two words, is the bit count. */
  lemma CounterIsBitCount(lo: Word32, hi: Word32, length: nat)
    requires Counts(lo, hi, length)
    ensures 8 * lo < U32 && Le32(8 * lo) + Le32(hi) == BitCount(length)
  {
    var k := length / U61;
    assert 8 * length == U32 * (U32 * k + hi) + 8 * lo;
    Remainder32(8 * length, U32 * k + hi, 8 * lo);
    Remainder32(U32 * k + hi, k, hi);
  }

  lemma Mod64(n: nat, k: nat, r: nat)
    requires n == 64 * k + r
    ensures n % 64 == r % 64
  {
  }

  lemma TailLength(lo: Word32, hi: Word32, length: nat)
    requires Counts(lo, hi, length)
    ensures lo % 64 == length % 64
  {
    var k := length / 0x2000_0000_0000_0000;
    assert length == 0x2000_0000_0000_0000 * k + lo + 0x2000_0000 * hi;
    Mod64(length, 0x80_0000_0000_0000 * k + 0x80_0000 * hi, lo);
  }

  // ------------------------------------------------------------------------------------------
  // Absorbing a message piece by piece
  // ------------------------------------------------------------------------------------------

  /** All complete blocks of m are in the chaining state, the rest is the tail. */
  ghost predicate Absorbed(s: State, tail: seq<Byte>, m: seq<Byte>) {
    && |tail| == |m| % 64
    && tail == m[|m| - |tail|..]
    && s == Compressed(INITIAL, m[..|m| - |tail|])
  }

  lemma AbsorbShort(s: State, tail: seq<Byte>, m: seq<Byte>, data: seq<Byte>)
    requires Absorbed(s, tail, m) && |tail| + |data| < 64
    ensures Absorbed(s, tail + data, m + data)
  {
    hide Compressed;
    assert (m + data)[..|m| - |tail|] == m[..|m| - |tail|];
    assert m == m[..|m| - |tail|] + tail;
    assert |m + data| % 64 == |tail + data|;
  }

  lemma WholeBlocks(n: nat, r: nat, k: nat)
    requires r == n % 64 && (r + k) % 64 == 0
    ensures r <= n && (n - r) % 64 == 0 && (n + k) % 64 == 0
  {
  }

  lemma AbsorbBlocks(s: State, tail: seq<Byte>, m: seq<Byte>, data: seq<Byte>)
    requires Absorbed(s, tail, m) && (|tail| + |data|) % 64 == 0
    ensures Absorbed(Compressed(s, tail + data), [], m + data)
  {
    hide Compressed;
    WholeBlocks(|m|, |tail|, |data|);
    var done := m[..|m| - |tail|];
    Regroup(m, done, tail, data);
    CompressedConcat(INITIAL, done, tail + data);
  }

  lemma Regroup(m: seq<Byte>, done: seq<Byte>, tail: seq<Byte>, data: seq<Byte>)
    requires |tail| <= |m| && tail == m[|m| - |tail|..] && done == m[..|m| - |tail|]
    ensures m + data == done + (tail + data)
    ensures (m + data)[..|m + data|] == m + data && (m + data)[|m + data|..] == []
  {
    assert m == done + tail;
  }

  lemma AbsorbedTail(s: State, tail: seq<Byte>, m: seq<Byte>)
    requires Absorbed(s, tail, m)
    ensures |tail| == |m| % 64
  {
  }

  /** What the padding adds to a tail makes up one or two blocks. */
  lemma PaddingBlocks(tail: seq<Byte>, m: seq<Byte>)
    requires |tail| == |m| % 64
    ensures |tail| < 56 ==> Padding(|m|) == [0x80] + Zeros(55 - |tail|) + BitCount(|m|)
    ensures |tail| >= 56 ==> Padding(|m|) == ([0x80] + Zeros(63 - |tail|)) + (Zeros(56) + BitCount(|m|))
  {
    hide BitCount;
    if |tail| >= 56 {
      assert ZeroCount(|m|) == (63 - |tail|) + 56;
      assert Zeros(ZeroCount(|m|)) == Zeros(63 - |tail|) + Zeros(56);
    }
  }

  /** The four rounds and the final additions are the compression of RFC 1321. */
  lemma RoundsCompress(s: State, x: seq<Word32>, s1: State, s2: State, s3: State, s4: State)
    requires |x| == 16
    requires s1 == Operations(0, 16, s, x) && s2 == Operations(16, 32, s1, x)
    requires s3 == Operations(32, 48, s2, x) && s4 == Operations(48, 64, s3, x)
    ensures s4 == Operations(0, 64, s, x)
  {
    hide Operations;
    OperationsConcat(0, 16, 32, s, x);
    OperationsConcat(0, 32, 48, s, x);
    OperationsConcat(0, 48, 64, s, x);
  }

  /** The octets of the state as they lie in memory, which is what is handed out. */
  function StateMemory(bigEndian: bool, s: State): seq<Byte> {
    if bigEndian then Reversed4(Le32(s.a)) + Reversed4(Le32(s.b)) + Reversed4(Le32(s.c)) + Reversed4(Le32(s.d))
    else StateOctets(s)
  }

  function Reversed4(o: seq<Byte>): (r: seq<Byte>)
    requires |o| == 4
    ensures |r| == 4
  {
    [o[3], o[2], o[1], o[0]]
  }

  /** What is handed out is the digest whatever the chaining words are exactly on little-endian hosts. */
  lemma MemoryOrderRightExactlyWhen(bigEndian: bool)
    ensures (forall s: State :: StateMemory(bigEndian, s) == StateOctets(s)) <==> !bigEndian
  {
    if bigEndian {
      var s := State(1, 0, 0, 0);
      assert StateOctets(s)[0] == 1 && StateMemory(true, s)[0] == 0;
    }
  }

  /** Every group of four octets the other way round. */
  function WordsSwapped(o: seq<Byte>): seq<Byte>
    requires |o| == 16
  {
    Reversed4(o[..4]) + Reversed4(o[4..8]) + Reversed4(o[8..12]) + Reversed4(o[12..])
  }

  /** On a big-endian host a caller gets the digest by swapping the octets of every word handed out. */
  lemma SwappingRecoversDigest(s: State)
    ensures |StateMemory(true, s)| == 16 && WordsSwapped(StateMemory(true, s)) == StateOctets(s)
  {
    hide Le32;
    var m := StateMemory(true, s);
    assert m[..4] == Reversed4(Le32(s.a)) && m[4..8] == Reversed4(Le32(s.b));
    assert m[8..12] == Reversed4(Le32(s.c)) && m[12..] == Reversed4(Le32(s.d));
  }

  // ------------------------------------------------------------------------------------------
  // The program's context
  // ------------------------------------------------------------------------------------------

  method Store(a: array<Byte>, at: nat, data: seq<Byte>)
    requires at + |data| <= a.Length
    modifies a
    ensures a[..] == old(a[..at]) + data + old(a[at + |data|..])
  {
    forall i | 0 <= i < |data| {
      a[at + i] := data[i];
    }
  }

  class Context {
    var lo: Word32
    var hi: Word32
    var abcd: State
    const buffer: array<Byte>
    ghost var message: seq<Byte>   // everything since the last initialisation

    ghost predicate Valid()
      reads this, buffer
    {
      && buffer.Length == 64
      && Counts(lo, hi, |message|)
      && Absorbed(abcd, buffer[..|message| % 64], message)
    }

    constructor ()
      ensures Valid() && message == [] && fresh(buffer)
    {
      buffer := new Byte[64];
      lo, hi, abcd, message := 0, 0, INITIAL, [];
    }

    method Init()
      requires buffer.Length == 64
      modifies this
      ensures Valid() && message == []
    {
      abcd := INITIAL;
      lo, hi := 0, 0;
      message := [];
    }

    /** Compresses one or more blocks. */
    method Body(data: seq<Byte>)
      requires |data| > 0 && |data| % 64 == 0
      modifies this`abcd
      ensures abcd == Compressed(old(abcd), data)
    {
      hide Compressed, Operations, Added, Words;
      var s, ptr := abcd, 0;
      assert s == Compressed(old(abcd), []) by { NoBlock(s); }
      while ptr < |data|
        invariant 0 <= ptr <= |data| && ptr % 64 == 0
        invariant s == Compressed(old(abcd), data[..ptr])
      {
        var x := Words(data[ptr..ptr + 64]);
        var saved := s;
        var s1 := Round1(s, x);
        var s2 := Round2(s1, x);
        var s3 := Round3(s2, x);
        var s4 := Round4(s3, x);
        RoundsCompress(saved, x, s1, s2, s3, s4);
        NextBlock(old(abcd), data, ptr);
        s := Added(s4, saved);
        ptr := ptr + 64;
      }
      assert data[..ptr] == data;
      abcd := s;
    }

    /** Adds to the counter and tells how much of the buffer was in use. */
    method Advance(size: nat, ghost length: nat) returns (used: nat)
      requires Counts(lo, hi, length)
      modifies this`lo, this`hi
      ensures used == length % 64
      ensures Counts(lo, hi, length + size)
    {
      hide Counts;
      TailLength(lo, hi, length);
      CounterAdvances(lo, hi, length, size);
      var savedLo := lo;
      lo := (savedLo + size) % U29;
      if lo < savedLo {
        hi := (hi + 1) % U32;
      }
      hi := (hi + size / U29 % U32) % U32;
      used := savedLo % 64;
    }

    /** Compresses the full buffer, in which data follows the tail of the message. */
    method Flush(ghost tail: seq<Byte>, ghost data: seq<Byte>)
      requires buffer.Length == 64 && buffer[..] == tail + data
      requires Absorbed(abcd, tail, message)
      modifies this`abcd, this`message
      ensures message == old(message) + data && Absorbed(abcd, [], message)
    {
      hide Absorbed, Compressed;
      AbsorbBlocks(abcd, tail, message, data);
      Body(buffer[..]);
      message := message + data;
    }

    /** Puts data behind the tail of the message, without filling the buffer. */
    method Keep(used: nat, data: seq<Byte>)
      requires buffer.Length == 64 && used == |message| % 64 && used + |data| < 64
      requires Absorbed(abcd, buffer[..used], message)
      modifies this`message, buffer
      ensures message == old(message) + data
      ensures Absorbed(abcd, buffer[..|message| % 64], message)
    {
      hide Compressed, Absorbed;
      ghost var tail := buffer[..used];
      Store(buffer, used, data);
      AbsorbShort(abcd, tail, message, data);
      message := message + data;
      assert |message| % 64 == used + |data| by { AbsorbedTail(abcd, tail + data, message); }
      assert buffer[..used + |data|] == tail + data;
    }

    /** Compresses the complete blocks of data directly. */
    method WholeBlocksOf(data: seq<Byte>) returns (rest: seq<Byte>)
      requires |data| >= 64 && Absorbed(abcd, [], message)
      modifies this`abcd, this`message
      ensures |rest| < 64 && message + rest == old(message) + data && Absorbed(abcd, [], message)
    {
      hide Absorbed, Compressed;
      var whole := |data| / 64 * 64;
      AbsorbBlocks(abcd, [], message, data[..whole]);
      assert [] + data[..whole] == data[..whole];
      Body(data[..whole]);
      message := message + data[..whole];
      rest := data[whole..];
    }

    method Update(data0: seq<Byte>)
      requires Valid()
      modifies this, buffer
      ensures Valid() && message == old(message) + data0
    {
      hide Counts, Absorbed, Compressed;
      ghost var all := message + data0;
      var used := Advance(|data0|, |message|);
      var data := data0;
      if used != 0 {
        var available := 64 - used;
        if |data| < available {
          Keep(used, data);
          return;
        }
        ghost var tail := buffer[..used];
        Store(buffer, used, data[..available]);
        Flush(tail, data[..available]);
        data := data[available..];
      }
      assert message + data == all;
      assert Absorbed(abcd, [], message);
      if |data| >= 64 {
        data := WholeBlocksOf(data);
      }
      AbsorbedTail(abcd, [], message);
      Keep(0, data);
      assert message == all;
    }

    /** Zeros up to the bit count, then the bit count. */
    method LastBlock(used: nat, available: nat, ghost tail: seq<Byte>, ghost start: seq<Byte>)
      requires buffer.Length == 64 && used + available == 64 && available >= 8 && 8 * lo < U32
      requires buffer[..used] == tail + start && Absorbed(abcd, tail, message)
      modifies this`lo, this`abcd, this`message, buffer
      ensures message == old(message) + (start + Zeros(available - 8) + (Le32(8 * old(lo)) + Le32(hi)))
      ensures Absorbed(abcd, [], message)
    {
      hide Absorbed, Compressed, Le32, Zeros;
      Store(buffer, used, Zeros(available - 8));
      lo := lo * 8;
      Store(buffer, 56, Le32(lo));
      Store(buffer, 60, Le32(hi));
      ghost var data := start + Zeros(available - 8) + (Le32(lo) + Le32(hi));
      assert buffer[..] == tail + data;
      Flush(tail, data);
    }

    /** Completes the last block or two; the context has to be initialised before it is used again. */
    method Final(bigEndian: bool) returns (digest: seq<Byte>)
      requires Valid()
      modifies this, buffer
      ensures digest == StateMemory(bigEndian, Compressed(INITIAL, old(message) + Padding(|old(message)|)))
      ensures !bigEndian ==> digest == Digest(old(message))
    {
      hide Counts, Absorbed, Compressed, Padding, BitCount, StateOctets;
      TailLength(lo, hi, |message|);
      CounterIsBitCount(lo, hi, |message|);
      ghost var tail := buffer[..|message| % 64];
      PaddingBlocks(tail, message);
      ghost var rest := message + Padding(|message|);
      var used := lo % 64;
      Store(buffer, used, [0x80]);
      used := used + 1;
      var available := 64 - used;
      if available < 8 {
        Store(buffer, used, Zeros(available));
        Flush(tail, [0x80] + Zeros(available));
        used := 0;
        available := 64;
      }
      if used == 0 {
        LastBlock(used, available, [], []);
      } else {
        LastBlock(used, available, tail, [0x80]);
      }
      assert message == rest;
      WholeMessage(abcd, rest);
      digest := StateMemory(bigEndian, abcd);
    }

    method Calc(bigEndian: bool, data: seq<Byte>) returns (digest: seq<Byte>)
      requires buffer.Length == 64
      modifies this, buffer
      ensures !bigEndian ==> digest == Digest(data)
      ensures digest == StateMemory(bigEndian, Compressed(INITIAL, data + Padding(|data|)))
    {
      Init();
      Update(data);
      assert message == data;
      digest := Final(bigEndian);
    }
  }

  lemma WholeMessage(s: State, m: seq<Byte>)
    requires Absorbed(s, [], m)
    ensures s == Compressed(INITIAL, m)
  {
    hide Compressed;
    assert m[..|m|] == m;
  }

  lemma NoBlock(s: State)
    ensures Compressed(s, []) == s
  {
  }
}
