/** How an IPv4 datagram is cut into fragments, and the reassembly of RFC 791 section 3.2 that undoes it. */
module Fragmentation {
  import opened Bytes

  // ------------------------------------------------------------------------------------------
  // Sizes
  // ------------------------------------------------------------------------------------------

  function RoundDown8(n: nat): nat {
    n / 8 * 8
  }

  /** The number of fragments for a datagram of length octets when each frame has room octets: 64-bit
      unsigned arithmetic, then cut to 32 bits. */
  function FragmentCount(length: nat, room: nat): nat
    requires length <= 0xffff && room > 0
  {
    var lengthMinusOne := if length == 0 then 0xffff_ffff_ffff_ffff else length - 1;
    (lengthMinusOne / room % U32 + 1) % U32
  }

  function FragmentOffset(i: nat, room: nat): nat {
    i * RoundDown8(room)
  }

  function FragmentSize(i: nat, length: nat, room: nat): nat
    requires 0 < length <= 0xffff && room > 0 && i < FragmentCount(length, room)
  {
    if i + 1 < FragmentCount(length, room) then RoundDown8(room)
    else if length - FragmentOffset(i, room) > room then room
    else (CountBounds(length, room); length - FragmentOffset(i, room))
  }

  /** How much of the datagram the fragments carry. */
  function Covered(length: nat, room: nat): nat
    requires 0 < length <= 0xffff && room > 0
  {
    var last := FragmentOffset(FragmentCount(length, room) - 1, room);
    if length <= last + room then length else last + room
  }

  lemma MulMonotone(a: nat, b: nat, c: nat)
    requires a <= b
    ensures a * c <= b * c && c * a <= c * b
  {
  }

  lemma QuotientAtMost(n: nat, d: nat)
    requires d > 0
    ensures n / d * d <= n < n / d * d + d
    ensures n / d <= n
  {
    if n / d > n {
      MulMonotone(1, d, n / d);
    }
  }

  lemma SmallCount(quotient: nat)
    requires quotient <= 0xffff
    ensures (quotient % U32 + 1) % U32 == quotient + 1
  {
  }

  lemma CountIsCeiling(length: nat, room: nat)
    requires 0 < length <= 0xffff && room > 0
    ensures FragmentCount(length, room) == (length - 1) / room + 1
  {
    QuotientAtMost(length - 1, room);
    SmallCount((length - 1) / room);
  }

  lemma OffsetBelow(i: nat, k: nat, room: nat)
    requires i < k
    ensures FragmentOffset(i, room) <= i * room <= (k - 1) * room
  {
    MulMonotone(i, k - 1, room);
    MulMonotone(RoundDown8(room), room, i);
  }

  lemma CountBounds(length: nat, room: nat)
    requires 0 < length <= 0xffff && room > 0
    ensures FragmentCount(length, room) > 0
    ensures (FragmentCount(length, room) - 1) * room < length <= FragmentCount(length, room) * room
    ensures forall i | 0 <= i < FragmentCount(length, room) :: FragmentOffset(i, room) < length
  {
    CountIsCeiling(length, room);
    QuotientAtMost(length - 1, room);
    var k := FragmentCount(length, room);
    assert k * room == (k - 1) * room + room;
    forall i | 0 <= i < k
      ensures FragmentOffset(i, room) < length
    {
      OffsetBelow(i, k, room);
    }
  }

  lemma NextOffset(i: nat, room: nat)
    ensures FragmentOffset(0, room) == 0
    ensures FragmentOffset(i + 1, room) == FragmentOffset(i, room) + RoundDown8(room)
    ensures FragmentOffset(i, room) % 8 == 0
  {
    assert (i + 1) * RoundDown8(room) == i * RoundDown8(room) + RoundDown8(room);
    var n := room / 8;
    assert FragmentOffset(i, room) == i * (n * 8) == 8 * (i * n);
  }

  /** Every fragment but the last finds more than a full frame's worth of data left. */
  lemma FullUntilLast(i: nat, length: nat, room: nat)
    requires 0 < length <= 0xffff && room > 0 && i + 1 < FragmentCount(length, room)
    ensures FragmentOffset(i, room) + room < length
  {
    CountBounds(length, room);
    var k := FragmentCount(length, room);
    OffsetBelow(i, k - 1, room);
    assert (k - 1) * room == (k - 2) * room + room;
  }

  /** The size by what is left: cut to the room in a frame, and rounded down unless it is the last. */
  lemma SizeByRemainder(i: nat, length: nat, room: nat)
    requires 0 < length <= 0xffff && room > 0 && i < FragmentCount(length, room)
    ensures FragmentOffset(i, room) < length
    ensures var left := length - FragmentOffset(i, room);
            var cut := if left > room then room else left;
            FragmentSize(i, length, room) == if i + 1 != FragmentCount(length, room) then cut / 8 * 8 else cut
  {
    CountBounds(length, room);
    if i + 1 < FragmentCount(length, room) {
      FullUntilLast(i, length, room);
    }
  }

  /** A datagram fits exactly when what is left for the last fragment fits one frame. */
  predicate Conserves(length: nat, room: nat)
    requires 0 < length <= 0xffff && room > 0
  {
    length <= (FragmentCount(length, room) - 1) * RoundDown8(room) + room
  }

  lemma CoversAllExactlyWhen(length: nat, room: nat)
    requires 0 < length <= 0xffff && room > 0
    ensures 0 < Covered(length, room) <= length
    ensures Covered(length, room) == length <==> Conserves(length, room)
    ensures room % 8 == 0 ==> Conserves(length, room)
    ensures FragmentCount(length, room) == 1 ==> Conserves(length, room)
  {
    CountBounds(length, room);
    if room % 8 == 0 {
      assert RoundDown8(room) == room;
      var k := FragmentCount(length, room);
      assert (k - 1) * room + room == k * room;
    }
  }

  /** Conservation is lost in practice: an MTU of 1499 leaves room for 1479 octets behind a plain header;
      a datagram of 2958 octets then loses its last 7. */
  lemma UnroundedRoomLosesData()
    ensures FragmentCount(2958, 1479) == 2
    ensures Covered(2958, 1479) == 2951
  {
    assert 2957 / 1479 == 1;
  }

  /** The count is the number of frames needed exactly when there is something to send: for an empty datagram
      the subtraction underflows, and no room makes up for it. */
  lemma CountRightExactlyWhen(length: nat, room: nat)
    requires length <= 0xffff && 0 < room < U32
    ensures FragmentCount(length, room) == (if length == 0 then 1 else (length - 1) / room + 1) <==> length > 0
  {
    if length > 0 {
      CountIsCeiling(length, room);
    } else {
      NotAMultiple(room);
    }
  }

  lemma NotAMultiple(room: nat)
    requires 0 < room < 0x1_0000_0000
    ensures 0xffff_ffff_ffff_ffff / room % 0x1_0000_0000 != 0
  {
    var q := 0xffff_ffff_ffff_ffff / room;
    var m, r := q / 0x1_0000_0000, q % 0x1_0000_0000;
    QuotientBounds(0xffff_ffff_ffff_ffff, room);
    assert q * room == 0x1_0000_0000 * (m * room) + r * room;
  }

  lemma QuotientBounds(n: nat, d: nat)
    requires d > 0
    ensures n / d * d <= n < n / d * d + d
  {
  }

  /** In a room of 1024 octets the count for an empty datagram even wraps to zero. */
  lemma EmptyCountWraps()
    ensures FragmentCount(0, 1024) == 0
  {
  }

  /** An example: 3993158784 frames at the usual MTU of 1500. */
  lemma EmptyDatagramUnderflows()
    ensures FragmentCount(0, 1480) == 3993158784
  {
  }

  // ------------------------------------------------------------------------------------------
  // Fragments and reassembly
  // ------------------------------------------------------------------------------------------

  datatype Fragment = Fragment(id: Word16, src: seq<Byte>, dst: seq<Byte>, protocol: Byte,
                               offset: nat, more: bool, data: seq<Byte>)

  predicate SameDatagram(f: Fragment, g: Fragment) {
    f.id == g.id && f.src == g.src && f.dst == g.dst && f.protocol == g.protocol
  }

  predicate Carries(f: Fragment, k: nat) {
    f.offset <= k < f.offset + |f.data|
  }

  function Octet(f: Fragment, k: nat): Byte
    requires Carries(f, k)
  {
    f.data[k - f.offset]
  }

  datatype Assembly = Assembly(octets: map<nat, Byte>, totalKnown: bool, total: nat)

  datatype Reassembled = Incomplete | Complete(data: seq<Byte>)

  /** A fragment's data goes to its offset; the fragment without the more-fragments flag fixes the length. */
  function Place(a: Assembly, f: Fragment): Assembly {
    var octets := a.octets + map k: nat | f.offset <= k < f.offset + |f.data| :: Octet(f, k);
    if f.more then a.(octets := octets) else Assembly(octets, true, f.offset + |f.data|)
  }

  function PlaceAll(arrived: seq<Fragment>): Assembly {
    if arrived == [] then Assembly(map[], false, 0)
    else Place(PlaceAll(arrived[..|arrived| - 1]), arrived[|arrived| - 1])
  }

  /** Complete when the length is known and no octet is missing. */
  function Reassemble(arrived: seq<Fragment>): Reassembled {
    var a := PlaceAll(arrived);
    if a.totalKnown && forall k | 0 <= k < a.total :: k in a.octets
    then Complete(seq(a.total, k requires 0 <= k < a.total => a.octets[k]))
    else Incomplete
  }

  /** Well-formed fragments of the first total octets of a datagram: no gap, no overlap, all but the last a
      multiple of eight octets and flagged, offsets in eight-octet units that fit 13 bits. */
  ghost predicate WellFragmented(frags: seq<Fragment>, datagram: seq<Byte>, total: nat) {
    && |frags| > 0 && frags[0].offset == 0 && total <= |datagram|
    && (forall i | 0 <= i < |frags| :: frags[i].offset + |frags[i].data| <= total)
    && (forall i | 0 <= i < |frags| :: frags[i].data == datagram[frags[i].offset..frags[i].offset + |frags[i].data|])
    && (forall i | 0 <= i < |frags| :: frags[i].more == (i + 1 < |frags|))
    && (forall i | 0 <= i < |frags| :: frags[i].offset % 8 == 0 && frags[i].offset / 8 < 0x2000)
    && (forall i | 0 <= i < |frags| - 1 :: |frags[i].data| % 8 == 0)
    && (forall i | 0 <= i < |frags| - 1 :: frags[i + 1].offset == frags[i].offset + |frags[i].data|)
    && frags[|frags| - 1].offset + |frags[|frags| - 1].data| == total
  }

  /** The fragments of one datagram as the compiler sizes them. */
  ghost predicate FragmentsOf(frags: seq<Fragment>, datagram: seq<Byte>, room: nat)
    requires 0 < |datagram| <= 0xffff && room > 0
  {
    && |frags| == FragmentCount(|datagram|, room)
    && forall i | 0 <= i < |frags| :: IsPiece(frags[i], i, datagram, room)
  }

  ghost predicate IsPiece(f: Fragment, i: nat, datagram: seq<Byte>, room: nat)
    requires 0 < |datagram| <= 0xffff && room > 0 && i < FragmentCount(|datagram|, room)
  {
    var size := FragmentSize(i, |datagram|, room);
    && f.offset == FragmentOffset(i, room)
    && f.offset + size <= |datagram|
    && f.data == datagram[f.offset..f.offset + size]
    && f.more == (i + 1 < FragmentCount(|datagram|, room))
  }

  lemma PieceFits(i: nat, length: nat, room: nat)
    requires 0 < length <= 0xffff && room > 0 && i < FragmentCount(length, room)
    ensures FragmentOffset(i, room) + FragmentSize(i, length, room) <= Covered(length, room) <= length
    ensures i + 1 == FragmentCount(length, room) ==>
              FragmentOffset(i, room) + FragmentSize(i, length, room) == Covered(length, room)
    ensures FragmentSize(i, length, room) <= room
  {
    CountBounds(length, room);
    if i + 1 < FragmentCount(length, room) {
      FullUntilLast(i, length, room);
      NextOffset(i, room);
      MulMonotone(i + 1, FragmentCount(length, room) - 1, RoundDown8(room));
    }
  }

  lemma PieceNotEmpty(i: nat, length: nat, room: nat)
    requires 0 < length <= 0xffff && room > 0 && i < FragmentCount(length, room)
    requires FragmentCount(length, room) > 1 ==> RoundDown8(room) > 0
    ensures FragmentSize(i, length, room) > 0
  {
    CountBounds(length, room);
  }

  lemma LaterPiecesBehind(i: nat, length: nat, room: nat)
    requires 0 < length <= 0xffff && room > 0 && 0 < i < FragmentCount(length, room)
    ensures FragmentOffset(i, room) >= FragmentSize(0, length, room)
  {
    MulMonotone(1, i, RoundDown8(room));
  }

  lemma FragmentsAreWellFormed(frags: seq<Fragment>, datagram: seq<Byte>, room: nat)
    requires 0 < |datagram| <= 0xffff && room > 0 && FragmentsOf(frags, datagram, room)
    ensures WellFragmented(frags, datagram, Covered(|datagram|, room))
  {
    hide FragmentOffset, FragmentCount, Covered, RoundDown8;
    var length := |datagram|;
    CountBounds(length, room);
    NextOffset(0, room);
    forall i | 0 <= i < |frags|
      ensures frags[i].offset % 8 == 0 && frags[i].offset / 8 < 0x2000
      ensures frags[i].offset + |frags[i].data| <= Covered(length, room) <= length
      ensures i + 1 == |frags| ==> frags[i].offset + |frags[i].data| == Covered(length, room)
      ensures frags[i].data == datagram[frags[i].offset..frags[i].offset + |frags[i].data|]
    {
      assert IsPiece(frags[i], i, datagram, room);
      NextOffset(i, room);
      PieceFits(i, length, room);
    }
    forall i | 0 <= i < |frags| - 1
      ensures |frags[i].data| % 8 == 0 && frags[i + 1].offset == frags[i].offset + |frags[i].data|
    {
      assert IsPiece(frags[i], i, datagram, room) && IsPiece(frags[i + 1], i + 1, datagram, room);
      NextOffset(i, room);
      RoundDown8IsMultiple(room);
    }
  }

  lemma RoundDown8IsMultiple(n: nat)
    ensures RoundDown8(n) % 8 == 0 && RoundDown8(n) <= n
  {
  }

  /** What is placed agrees with the datagram and covers what the arrived fragments cover. */
  lemma {:induction false} PlacedAgrees(arrived: seq<Fragment>, frags: seq<Fragment>, datagram: seq<Byte>, total: nat)
    requires WellFragmented(frags, datagram, total)
    requires forall f | f in arrived :: f in frags
    ensures var a := PlaceAll(arrived);
            && (forall k | k in a.octets :: k < |datagram| && a.octets[k] == datagram[k])
            && (forall f, k: nat | f in arrived && Carries(f, k) :: k in a.octets)
            && (a.totalKnown ==> a.total == total)
            && (frags[|frags| - 1] in arrived ==> a.totalKnown)
  {
    if arrived != [] {
      var before, f := arrived[..|arrived| - 1], arrived[|arrived| - 1];
      PlacedAgrees(before, frags, datagram, total);
      assert f in arrived;
      PlaceAgrees(PlaceAll(before), f, frags, datagram, total);
      forall g, k: nat | g in arrived && Carries(g, k)
        ensures k in PlaceAll(arrived).octets
      {
        assert g in before || g == f;
      }
    }
  }

  lemma PlaceAgrees(a: Assembly, f: Fragment, frags: seq<Fragment>, datagram: seq<Byte>, total: nat)
    requires WellFragmented(frags, datagram, total) && f in frags
    requires forall k | k in a.octets :: k < |datagram| && a.octets[k] == datagram[k]
    ensures forall k | k in Place(a, f).octets :: k < |datagram| && Place(a, f).octets[k] == datagram[k]
    ensures !f.more ==> f.offset + |f.data| == total
  {
    var i :| 0 <= i < |frags| && frags[i] == f;
    assert f.data == datagram[f.offset..f.offset + |f.data|];
    forall k | k in Place(a, f).octets
      ensures k < |datagram| && Place(a, f).octets[k] == datagram[k]
    {
      if Carries(f, k) {
        assert Place(a, f).octets[k] == Octet(f, k) == datagram[k];
      }
    }
  }

  /** Every octet up to the covered length lies in some fragment. */
  lemma {:induction false} NoGap(frags: seq<Fragment>, datagram: seq<Byte>, total: nat, k: nat, n: nat) returns (i: nat)
    requires WellFragmented(frags, datagram, total)
    requires n < |frags| && k < frags[n].offset + |frags[n].data|
    ensures i <= n && Carries(frags[i], k)
  {
    if k >= frags[n].offset {
      i := n;
    } else {
      i := NoGap(frags, datagram, total, k, n - 1);
    }
  }

  /** Reassembly gives the covered prefix of the datagram, in whatever order and however often the
      fragments arrive. */
  lemma ReassemblyUndoesFragmentation(arrived: seq<Fragment>, frags: seq<Fragment>, datagram: seq<Byte>, total: nat)
    requires WellFragmented(frags, datagram, total)
    requires forall f :: f in arrived <==> f in frags
    ensures Reassemble(arrived) == Complete(datagram[..total])
  {
    PlacedAgrees(arrived, frags, datagram, total);
    var a := PlaceAll(arrived);
    assert frags[|frags| - 1] in arrived;
    forall k | 0 <= k < a.total
      ensures k in a.octets
    {
      var i := NoGap(frags, datagram, total, k, |frags| - 1);
      assert frags[i] in arrived;
    }
  }

  /** The fragments of the datagram a fragment belongs to: RFC 791 tells them by identification, addresses and
      protocol. */
  function Of(arrived: seq<Fragment>, key: Fragment): seq<Fragment> {
    if arrived == [] then []
    else
      var before, f := Of(arrived[..|arrived| - 1], key), arrived[|arrived| - 1];
      if SameDatagram(f, key) then before + [f] else before
  }

  lemma {:induction false} OfMembers(arrived: seq<Fragment>, key: Fragment)
    ensures forall f :: f in Of(arrived, key) <==> f in arrived && SameDatagram(f, key)
  {
    hide SameDatagram;
    if arrived != [] {
      var before, f := arrived[..|arrived| - 1], arrived[|arrived| - 1];
      OfMembers(before, key);
      assert arrived == before + [f];
    }
  }

  /** Fragments of other datagrams in between do not matter. */
  lemma InterleavedReassembly(arrived: seq<Fragment>, frags: seq<Fragment>, key: Fragment, datagram: seq<Byte>, total: nat)
    requires WellFragmented(frags, datagram, total)
    requires forall f :: f in arrived && SameDatagram(f, key) <==> f in frags
    ensures Reassemble(Of(arrived, key)) == Complete(datagram[..total])
  {
    hide WellFragmented, Reassemble, SameDatagram;
    OfMembers(arrived, key);
    ReassemblyUndoesFragmentation(Of(arrived, key), frags, datagram, total);
  }

  lemma {:induction false} EmptyTotal(arrived: seq<Fragment>, last: Fragment)
    requires forall f | f in arrived :: !f.more ==> f.offset + |f.data| == 0
    ensures PlaceAll(arrived).totalKnown ==> PlaceAll(arrived).total == 0
    ensures last in arrived && !last.more ==> PlaceAll(arrived).totalKnown
  {
    if arrived != [] {
      var before, f := arrived[..|arrived| - 1], arrived[|arrived| - 1];
      assert forall g | g in before :: g in arrived;
      EmptyTotal(before, last);
      assert f in arrived && (last in arrived ==> last in before || last == f);
    }
  }

  /** Fragments of which the last says that nothing came before it reassemble to nothing. */
  lemma EmptyReassembles(arrived: seq<Fragment>, last: Fragment)
    requires last in arrived && !last.more
    requires forall f | f in arrived :: !f.more ==> f.offset + |f.data| == 0
    ensures Reassemble(arrived) == Complete([])
  {
    EmptyTotal(arrived, last);
  }

  /** As long as one octet of the datagram has not arrived the receiver keeps waiting. */
  lemma NothingBeforeEverythingArrived(arrived: seq<Fragment>, frags: seq<Fragment>, datagram: seq<Byte>, total: nat, k: nat)
    requires WellFragmented(frags, datagram, total)
    requires forall f | f in arrived :: f in frags
    requires k < total && forall f | f in arrived :: !Carries(f, k)
    ensures Reassemble(arrived) == Incomplete
  {
    PlacedAgrees(arrived, frags, datagram, total);
    NeverPlaced(arrived, k);
  }

  lemma {:induction false} NeverPlaced(arrived: seq<Fragment>, k: nat)
    requires forall f | f in arrived :: !Carries(f, k)
    ensures k !in PlaceAll(arrived).octets
  {
    if arrived != [] {
      var before := arrived[..|arrived| - 1];
      assert forall f | f in before :: f in arrived;
      NeverPlaced(before, k);
      assert arrived[|arrived| - 1] in arrived;
    }
  }
}
