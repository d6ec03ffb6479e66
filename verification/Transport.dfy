/** UDP and TCP on top of the fragmenting IPv4 packet: the checksum is computed after the datagram has been
    cut, over the length the fragments add up to, and then written into the first fragment. */
module Transport {
  import opened Bytes
  import opened Checksum
  import opened Fragmentation
  import opened Ipv4
  import Ethernet

  const PROTO_TCP: Byte := 6
  const PROTO_UDP: Byte := 17

  // ------------------------------------------------------------------------------------------
  // The receiver
  // ------------------------------------------------------------------------------------------

  /** What RFC 768 and RFC 9293 have a checksum cover besides the segment: both addresses, the protocol and the
      length of the segment, each as 16-bit words. */
  function ExtraSum(src: Address, dst: Address, protocol: Byte, length: nat): nat {
    BeSum(src) + BeSum(dst) + protocol + length
  }

  /** A segment is intact when its words and the extra ones sum up to all ones. */
  predicate SegmentIntact(src: Address, dst: Address, protocol: Byte, segment: seq<Byte>) {
    |segment| <= 0xffff && Fold(ExtraSum(src, dst, protocol, |segment|) + BeSum(segment)) == 0xffff
  }

  /** RFC 768: the length field is the length of the datagram, and the checksum is absent or verifies. */
  predicate UdpAccepts(src: Address, dst: Address, segment: seq<Byte>) {
    && |segment| >= 8
    && ReadBe16(segment[4..6]) == |segment|
    && (segment[6..8] == [0, 0] || SegmentIntact(src, dst, 17, segment))
  }

  // ------------------------------------------------------------------------------------------
  // Headers
  // ------------------------------------------------------------------------------------------

  datatype UdpHeader = UdpHeader(srcPort: Word16, dstPort: Word16, length: Word16, checksum: Word16) {
    function Front(): (s: seq<Byte>)
      ensures |s| == 6
    {
      Be16(srcPort) + Be16(dstPort) + Be16(length)
    }

    function Octets(): (s: seq<Byte>)
      ensures |s| == 8
    {
      Front() + Be16(checksum)
    }
  }

  datatype TcpHeader = TcpHeader(srcPort: Word16, dstPort: Word16, seqNumber: Word32, ackNumber: Word32,
                                 dataOffset: Byte, flags: Byte, window: Word16, checksum: Word16, urgentPtr: Word16)
  {
    function Front(): (s: seq<Byte>)
      ensures |s| == 16
    {
      Be16(srcPort) + Be16(dstPort) + Be32(seqNumber) + Be32(ackNumber) + [dataOffset, flags] + Be16(window)
    }

    function Octets(): (s: seq<Byte>)
      ensures |s| == 20
    {
      Front() + Be16(checksum) + Be16(urgentPtr)
    }

    predicate IsSyn() {
      flags / 2 % 2 == 1
    }
  }

  /** A receiver finds every field of a UDP header where RFC 768 puts it, most significant octet first. */
  lemma UdpFieldsRead(h: UdpHeader, payload: seq<Byte>)
    ensures var s := h.Octets() + payload;
            && 256 * s[0] as int + s[1] == h.srcPort && 256 * s[2] as int + s[3] == h.dstPort
            && 256 * s[4] as int + s[5] == h.length && 256 * s[6] as int + s[7] == h.checksum
            && s[8..] == payload
  {
    OctetsOf16(h.srcPort);
    OctetsOf16(h.dstPort);
    OctetsOf16(h.length);
    OctetsOf16(h.checksum);
    hide Be16;
  }

  /** The same for a TCP header and section 3.1 of RFC 9293. */
  lemma TcpFieldsRead(h: TcpHeader, payload: seq<Byte>)
    ensures var s := h.Octets() + payload;
            && 256 * s[0] as int + s[1] == h.srcPort && 256 * s[2] as int + s[3] == h.dstPort
            && 0x1000000 * s[4] as int + 0x10000 * s[5] as int + 0x100 * s[6] as int + s[7] == h.seqNumber
            && 0x1000000 * s[8] as int + 0x10000 * s[9] as int + 0x100 * s[10] as int + s[11] == h.ackNumber
            && s[12] == h.dataOffset && s[13] == h.flags
            && (h.IsSyn() <==> s[13] % 4 >= 2)
            && 256 * s[14] as int + s[15] == h.window && 256 * s[16] as int + s[17] == h.checksum && 256 * s[18] as int + s[19] == h.urgentPtr
            && s[20..] == payload
  {
    OctetsOf16(h.srcPort);
    OctetsOf16(h.dstPort);
    OctetsOf32(h.seqNumber);
    OctetsOf32(h.ackNumber);
    OctetsOf16(h.window);
    OctetsOf16(h.checksum);
    OctetsOf16(h.urgentPtr);
    hide Be16, Be32;
  }

  // ------------------------------------------------------------------------------------------
  // The checksum
  // ------------------------------------------------------------------------------------------

  /** Zero means "no checksum" in UDP and is replaced by its other representation. */
  function NeverZero(c: Word16): (r: Word16)
    ensures r != 0
  {
    if c == 0 then 0xffff else c
  }

  /** The pseudo header as the program lays it out. */
  function PseudoHeader(src: Address, dst: Address, protocol: Byte, length: Word16): (s: seq<Byte>)
    ensures |s| == 12
  {
    src + dst + [0, protocol] + Be16(length)
  }

  /** Its words are the extra ones. */
  lemma PseudoHeaderSum(src: Address, dst: Address, protocol: Byte, length: Word16, segment: seq<Byte>)
    ensures BeSum(PseudoHeader(src, dst, protocol, length) + segment)
            == BeSum(src) + BeSum(dst) + protocol + length + BeSum(segment)
  {
    hide BeSum;
    var p: seq<Byte> := [0, protocol];
    BeSumConcat(PseudoHeader(src, dst, protocol, length), segment);
    BeSumConcat(src + dst + p, Be16(length));
    BeSumConcat(src + dst, p);
    BeSumConcat(src, dst);
    WordSum(p);
    WordSum(Be16(length));
  }

  /** What a sum s is stored as when lost is missing from it. */
  function TransportChecksum(s: nat, lost: nat): (c: Word16)
    ensures c != 0
  {
    var f := Fold(if lost <= s then s - lost else 0);
    NeverZero(if f <= 0xffff then 0xffff - f else 0)
  }

  /** The value that ends up in the header, read most significant octet first. */
  method CalcChecksum(bigEndian: bool, src: Address, dst: Address, protocol: Byte, length: Word16,
                      header: seq<Byte>, payload: Part) returns (c: Word16)
    requires |header| % 2 == 0
    ensures c != 0
    ensures 12 + |header| + |payload.Octets()| <= MAX_SUMMED ==>
              c == TransportChecksum(ExtraSum(src, dst, protocol, length) + BeSum(header + payload.Octets()),
                                     LostSum(bigEndian, payload))
  {
    hide StoredResult, Be16, PseudoHeader, Fold, BeSum, LostSum;
    var p := Part(0, PseudoHeader(src, dst, protocol, length));
    var p2 := Part(0, header);
    var chksum := Rfc1071(bigEndian, p, p2, payload);
    if 12 + |header| + |payload.Octets()| <= MAX_SUMMED {
      StoredResultWithLoss(bigEndian, p, p2, payload);
      assert Joined(p, p2, payload) == PseudoHeader(src, dst, protocol, length) + (header + payload.Octets());
      PseudoHeaderSum(src, dst, protocol, length, header + payload.Octets());
    }
    StoredZero(bigEndian, chksum);
    c := ReadBe16(NativeStore(bigEndian, if chksum != 0 then chksum else 0xffff));
  }

  lemma StoredZero(bigEndian: bool, v: Word16)
    ensures ReadBe16(NativeStore(bigEndian, v)) == 0 <==> v == 0
    ensures ReadBe16(NativeStore(bigEndian, 0xffff)) == 0xffff
  {
  }

  /** On a big-endian host an odd payload at an odd address is summed wrong unless it ends with a zero. */
  predicate TailLost(bigEndian: bool, payload: Part) {
    MisreadsTail(bigEndian, payload) && payload.octets[|payload.octets| - 1] != 0
  }

  /** A segment whose header carries the computed checksum is intact exactly when nothing was lost. */
  lemma IntactExactlyWhen(bigEndian: bool, src: Address, dst: Address, protocol: Byte,
                          front: seq<Byte>, behind: seq<Byte>, payload: Part, c: Word16)
    requires |front| % 2 == 0 && |behind| % 2 == 0 && |front| + 2 + |behind| + |payload.Octets()| <= 0xffff
    requires var segment := front + [0, 0] + behind + payload.Octets();
             c == TransportChecksum(ExtraSum(src, dst, protocol, |segment|) + BeSum(segment), LostSum(bigEndian, payload))
    ensures SegmentIntact(src, dst, protocol, front + Be16(c) + behind + payload.Octets())
        <==> !TailLost(bigEndian, payload)
  {
    hide PseudoHeader, Be16, Fold, BeSum, LostSum;
    var data := payload.Octets();
    var zeroed, carried := front + [0, 0] + behind + data, front + Be16(c) + behind + data;
    var ps := PseudoHeader(src, dst, protocol, |zeroed|);
    var lost := LostSum(bigEndian, payload);
    PseudoHeaderSum(src, dst, protocol, |zeroed|, zeroed);
    PseudoHeaderSum(src, dst, protocol, |zeroed|, carried);
    assert ps + zeroed == (ps + front) + [0, 0] + (behind + data);
    assert ps + carried == (ps + front) + Be16(c) + (behind + data);
    assert (ps + front + [0, 0] + behind) + data == (ps + front) + [0, 0] + (behind + data);
    LossBounded(bigEndian, ps + front + [0, 0] + behind, payload);
    FoldFacts(BeSum((ps + front) + [0, 0] + (behind + data)) - lost);
    VerifiesExactlyWhen(ps + front, behind + data, lost, c);
    LostSumZero(bigEndian, payload);
  }

  // ------------------------------------------------------------------------------------------
  // UDP
  // ------------------------------------------------------------------------------------------

  lemma UdpRewritten(j: Job, header0: UdpHeader, header: UdpHeader, payload: seq<Byte>)
    requires j.datagram == header0.Octets() + payload
    ensures j.WithL4Header(header.Octets()).datagram == header.Octets() + payload
    ensures j.WithL4Header(header.Octets()) == j.(datagram := header.Octets() + payload)
  {
  }

  lemma UdpChecksum(bigEndian: bool, src: Address, dst: Address, header: UdpHeader, c: Word16, payload: Part)
    requires header.checksum == 0 && 8 + |payload.Octets()| <= 0xffff
    requires c == TransportChecksum(ExtraSum(src, dst, PROTO_UDP, 8 + |payload.Octets()|) + BeSum(header.Octets() + payload.Octets()),
                                    LostSum(bigEndian, payload))
    ensures SegmentIntact(src, dst, PROTO_UDP, header.(checksum := c).Octets() + payload.Octets())
        <==> !TailLost(bigEndian, payload)
  {
    hide ExtraSum, SegmentIntact, TransportChecksum, TailLost, LostSum, BeSum;
    var data := payload.Octets();
    assert Be16(0) == [0, 0];
    assert header.Octets() + data == header.Front() + [0, 0] + [] + data;
    assert header.(checksum := c).Octets() + data == header.Front() + Be16(c) + [] + data;
    IntactExactlyWhen(bigEndian, src, dst, PROTO_UDP, header.Front(), [], payload, c);
  }

  lemma ProtocolNumbers()
    ensures PROTO_UDP == 17 && PROTO_TCP == 6
  {
  }

  lemma NotEmpty(j: Job)
    requires |j.datagram| > 0
    ensures j.Valid() <==> j.Encodable()
  {
  }

  lemma JobBounds(j: Job)
    requires j.Valid()
    ensures 0 < |j.datagram| <= 0xffff && |j.datagram| + j.header.Length() <= 0xffff && j.room > 0
    ensures 12 + |j.datagram| <= MAX_SUMMED
  {
  }

  /** The layer-4 header lies in the first fragment. */
  lemma FirstPieceHolds(j: Job, headerLen: nat)
    requires j.Valid() && 0 < headerLen <= |j.datagram|
    requires headerLen <= j.room && (|j.datagram| > j.room ==> headerLen <= RoundDown8(j.room))
    ensures j.Count() > 0 && headerLen <= FragmentSize(0, |j.datagram|, j.room)
    ensures j.Count() > 1 ==> RoundDown8(j.room) > 0
  {
    hide FragmentSize, RoundDown8;
    HeaderFitsFirst(headerLen, |j.datagram|, j.room);
    CountBounds(|j.datagram|, j.room);
    if |j.datagram| <= j.room && j.Count() > 1 {
      MulMonotone(1, j.Count() - 1, j.room);
    }
  }

  class UdpPacket {
    const ip: IpPacket
    var header: UdpHeader

    constructor (mtu: nat)
      ensures fresh(ip) && ip.mtu == mtu && header == UdpHeader(0, 0, 0, 0)
    {
      ip := new IpPacket(mtu);
      header := UdpHeader(0, 0, 0, 0);
    }

    /** Compiles the datagram without a checksum, then computes the checksum and writes the header again.
        Fails when the datagram is too long or a fragment does not fit its frame. */
    method Compile(ids: Identifications, bigEndian: bool, payload: Part) returns (ok: bool, ghost j: Job)
      requires |ip.packets| == 1 && ip.packets[0].Valid()
      requires ip.mtu > ip.HeaderLength() && RoundDown8(ip.mtu - ip.HeaderLength()) >= 8
      requires header.checksum == 0
      modifies this, ip`packets, ip.packets[0], ip.packets[0].packet, ids
      ensures j == old(ip.JobFor(j.header.id, 17, j.datagram)) && |j.datagram| == 8 + |payload.Octets()|
      ensures ok <==> j.Valid() && j.Fits(old(ip.packets[0].packetMaxLength))
      ensures ok ==> j.datagram == header.Octets() + payload.Octets() && header.checksum != 0
      ensures ok ==> header == old(header).(length := 8 + |payload.Octets()|, checksum := header.checksum)
      ensures ok ==> Separate(ip.packets) && AllValid(ip.packets, old(ip.packets[0].packetMaxLength))
      ensures ok ==> Frames(ip.packets) == j.AllFrames()
      ensures ok && Conserves(|j.datagram|, j.room) ==>
                (SegmentIntact(ip.srcIP, ip.dstIP, 17, j.datagram) <==> !TailLost(bigEndian, payload))
    {
      hide *;
      ProtocolNumbers();
      RoundDown8IsMultiple(ip.mtu - ip.HeaderLength());
      header := header.(length := (8 + |payload.Octets()|) % 0x1_0000);
      ghost var capacity := ip.packets[0].packetMaxLength;
      ok, j := ip.V4Compile(ids, bigEndian, PROTO_UDP, header.Octets(), payload.Octets());
      NotEmpty(j);
      if ok {
        JobBounds(j);
        j := WriteChecksum(bigEndian, payload, j, capacity);
      }
    }

    /** The second half of the compilation: the datagram is in the frames, its checksum still zero. */
    method WriteChecksum(bigEndian: bool, payload: Part, ghost j0: Job, ghost capacity: nat) returns (ghost j: Job)
      requires j0.Valid() && j0.header.Length() == ip.HeaderLength() && RoundDown8(j0.room) >= 8
      requires header.checksum == 0 && j0.datagram == header.Octets() + payload.Octets()
      requires |ip.packets| > 0 && Separate(ip.packets) && AllValid(ip.packets, capacity)
      requires Frames(ip.packets) == j0.AllFrames()
      modifies this, ip.packets[0], ip.packets[0].packet
      ensures header == old(header).(checksum := header.checksum) && header.checksum != 0
      ensures j == j0.(datagram := header.Octets() + payload.Octets()) && j.Valid() && j.Fits(capacity)
      ensures Separate(ip.packets) && AllValid(ip.packets, capacity) && Frames(ip.packets) == j.AllFrames()
      ensures Conserves(|j.datagram|, j.room) ==>
                (SegmentIntact(ip.srcIP, ip.dstIP, 17, j.datagram) <==> !TailLost(bigEndian, payload))
    {
      hide *;
      ProtocolNumbers();
      JobBounds(j0);
      RoundDown8IsMultiple(j0.room);
      FirstPieceHolds(j0, 8);
      CoversAllExactlyWhen(|j0.datagram|, j0.room);
      var length := ip.GetPayloadLength(j0, capacity);
      var checksum := CalcChecksum(bigEndian, ip.srcIP, ip.dstIP, PROTO_UDP, length % 0x1_0000, header.Octets(), payload);
      if length == 8 + |payload.Octets()| {
        UdpChecksum(bigEndian, ip.srcIP, ip.dstIP, header, checksum, payload);
      }
      UdpRewritten(j0, header, header.(checksum := checksum), payload.Octets());
      header := header.(checksum := checksum);
      j := j0.WithL4Header(header.Octets());
      var ok := ip.UpdateL4Header(header.Octets(), j0, j, capacity);
      FramesFit(ip.packets, j, capacity);
    }
  }

  lemma UdpAcceptsNoPrefix(src: Address, dst: Address, header: UdpHeader, payload: seq<Byte>, n: nat)
    requires header.length == 8 + |payload| && n <= 8 + |payload|
    ensures n < 8 + |payload| ==> !UdpAccepts(src, dst, (header.Octets() + payload)[..n])
    ensures header.checksum != 0 ==>
              (UdpAccepts(src, dst, header.Octets() + payload) <==> SegmentIntact(src, dst, 17, header.Octets() + payload))
  {
    hide SegmentIntact, Be16, ReadBe16;
    var whole := header.Octets() + payload;
    assert whole[4..6] == header.Octets()[4..6] == Be16(header.length);
    if n >= 6 {
      assert whole[..n][4..6] == whole[4..6];
    }
    assert whole[6..8] == header.Octets()[6..8] == Be16(header.checksum);
    assert ReadBe16([0, 0]) == 0 by { ReadZero(); }
  }

  lemma ReadZero()
    ensures ReadBe16([0, 0]) == 0
  {
  }

  /** A receiver that gets all frames accepts the datagram exactly when cutting it lost nothing and its checksum
      verifies, and then has the header and payload that were sent. */
  lemma UdpAcceptedExactlyWhen(j: Job, header: UdpHeader, payload: seq<Byte>, arrived: seq<seq<Byte>>)
    requires j.Valid() && Arrives(arrived, j)
    requires j.datagram == header.Octets() + payload && header.length == |j.datagram| && header.checksum != 0
    ensures forall p | p in arrived :: Parsable(p)
    ensures Reassemble(Received(arrived)).Complete?
    ensures UdpAccepts(j.header.src, j.header.dst, Reassemble(Received(arrived)).data)
        <==> Conserves(|j.datagram|, j.room) && SegmentIntact(j.header.src, j.header.dst, 17, j.datagram)
    ensures Conserves(|j.datagram|, j.room) ==> Reassemble(Received(arrived)).data == header.Octets() + payload
  {
    hide *;
    JobBounds(j);
    ReceiverReassembles(j, arrived);
    CoversAllExactlyWhen(|j.datagram|, j.room);
    UdpAcceptsNoPrefix(j.header.src, j.header.dst, header, payload, Covered(|j.datagram|, j.room));
    assert j.datagram[..|j.datagram|] == j.datagram;
  }

  // ------------------------------------------------------------------------------------------
  // TCP
  // ------------------------------------------------------------------------------------------

  /** The sequence number all TCP packets share. */
  class TcpSequence {
    var next: Word32

    constructor ()
      ensures next == 42
    {
      next := 42;
    }
  }

  lemma TcpRewritten(j: Job, header0: TcpHeader, header: TcpHeader, payload: seq<Byte>)
    requires j.datagram == header0.Octets() + payload
    ensures j.WithL4Header(header.Octets()).datagram == header.Octets() + payload
    ensures j.WithL4Header(header.Octets()) == j.(datagram := header.Octets() + payload)
  {
  }

  lemma TcpChecksum(bigEndian: bool, src: Address, dst: Address, header: TcpHeader, c: Word16, payload: Part)
    requires header.checksum == 0 && 20 + |payload.Octets()| <= 0xffff
    requires c == TransportChecksum(ExtraSum(src, dst, PROTO_TCP, 20 + |payload.Octets()|) + BeSum(header.Octets() + payload.Octets()),
                                    LostSum(bigEndian, payload))
    ensures SegmentIntact(src, dst, PROTO_TCP, header.(checksum := c).Octets() + payload.Octets())
        <==> !TailLost(bigEndian, payload)
  {
    hide ExtraSum, SegmentIntact, TransportChecksum, TailLost, LostSum, BeSum, Be32;
    var data, urgent := payload.Octets(), Be16(header.urgentPtr);
    assert Be16(0) == [0, 0];
    assert header.Octets() + data == header.Front() + [0, 0] + urgent + data;
    assert header.(checksum := c).Octets() + data == header.Front() + Be16(c) + urgent + data;
    IntactExactlyWhen(bigEndian, src, dst, PROTO_TCP, header.Front(), urgent, payload, c);
  }

  class TcpPacket {
    const ip: IpPacket
    var header: TcpHeader

    constructor (mtu: nat, sequence: TcpSequence)
      ensures fresh(ip) && ip.mtu == mtu
      ensures header == TcpHeader(0, 0, sequence.next, 0, 0x50, 0, 1024, 0, 0)
    {
      ip := new IpPacket(mtu);
      header := TcpHeader(0, 0, sequence.next, 0, 0x50, 0, 1024, 0, 0);
    }

    method SetSeqNumber(seq32: Word32, sequence: TcpSequence)
      modifies this, sequence
      ensures header == old(header).(seqNumber := seq32) && sequence.next == seq32
    {
      header := header.(seqNumber := seq32);
      sequence.next := seq32;
    }

    /** As for UDP, but the user's checksum is kept if there is one. The next packet continues behind this
        packet's data; SYN counts as one octet. */
    method Compile(ids: Identifications, sequence: TcpSequence, bigEndian: bool, payload: Part, calcChksum: bool)
      returns (ok: bool, ghost j: Job)
      requires |ip.packets| == 1 && ip.packets[0].Valid()
      requires ip.mtu - ip.HeaderLength() >= 20
      requires 20 + |payload.Octets()| > ip.mtu - ip.HeaderLength() ==> RoundDown8(ip.mtu - ip.HeaderLength()) >= 20
      requires calcChksum ==> header.checksum == 0
      modifies this, ip`packets, ip.packets[0], ip.packets[0].packet, ids, sequence
      ensures j == old(ip.JobFor(j.header.id, 6, j.datagram)) && |j.datagram| == 20 + |payload.Octets()|
      ensures ok <==> j.Valid() && j.Fits(old(ip.packets[0].packetMaxLength))
      ensures ok ==> j.datagram == header.Octets() + payload.Octets()
      ensures header == old(header).(checksum := header.checksum)
      ensures ok && !calcChksum ==> header == old(header)
      ensures ok ==> Separate(ip.packets) && AllValid(ip.packets, old(ip.packets[0].packetMaxLength))
      ensures ok ==> Frames(ip.packets) == j.AllFrames()
      ensures ok && calcChksum ==> header.checksum != 0
      ensures ok && calcChksum && Conserves(|j.datagram|, j.room) ==>
                (SegmentIntact(ip.srcIP, ip.dstIP, 6, j.datagram) <==> !TailLost(bigEndian, payload))
      ensures sequence.next ==
                if !ok then old(sequence.next)
                else (old(sequence.next) + |payload.Octets()| + (if header.IsSyn() then 1 else 0)) % 0x1_0000_0000
    {
      hide *;
      ProtocolNumbers();
      RoundDown8IsMultiple(ip.mtu - ip.HeaderLength());
      ghost var capacity := ip.packets[0].packetMaxLength;
      ok, j := ip.V4Compile(ids, bigEndian, PROTO_TCP, header.Octets(), payload.Octets());
      NotEmpty(j);
      if ok {
        JobBounds(j);
        j := WriteHeader(bigEndian, payload, calcChksum, j, capacity);
        sequence.next := (sequence.next + |payload.Octets()| + (if header.IsSyn() then 1 else 0)) % 0x1_0000_0000;
      }
    }

    /** The second half of the compilation: the datagram is in the frames, and its header is written again. */
    method WriteHeader(bigEndian: bool, payload: Part, calcChksum: bool, ghost j0: Job, ghost capacity: nat)
      returns (ghost j: Job)
      requires j0.Valid() && j0.header.Length() == ip.HeaderLength()
      requires j0.room >= 20 && (|j0.datagram| > j0.room ==> RoundDown8(j0.room) >= 20)
      requires (calcChksum ==> header.checksum == 0) && j0.datagram == header.Octets() + payload.Octets()
      requires |ip.packets| > 0 && Separate(ip.packets) && AllValid(ip.packets, capacity)
      requires Frames(ip.packets) == j0.AllFrames()
      modifies this, ip.packets[0], ip.packets[0].packet
      ensures header == old(header).(checksum := header.checksum)
      ensures if calcChksum then header.checksum != 0 else header == old(header)
      ensures j == j0.(datagram := header.Octets() + payload.Octets()) && j.Valid() && j.Fits(capacity)
      ensures Separate(ip.packets) && AllValid(ip.packets, capacity) && Frames(ip.packets) == j.AllFrames()
      ensures calcChksum && Conserves(|j.datagram|, j.room) ==>
                (SegmentIntact(ip.srcIP, ip.dstIP, 6, j.datagram) <==> !TailLost(bigEndian, payload))
    {
      hide *;
      ProtocolNumbers();
      JobBounds(j0);
      RoundDown8IsMultiple(j0.room);
      FirstPieceHolds(j0, 20);
      CoversAllExactlyWhen(|j0.datagram|, j0.room);
      ghost var header0 := header;
      if calcChksum {
        var length := ip.GetPayloadLength(j0, capacity);
        var checksum := CalcChecksum(bigEndian, ip.srcIP, ip.dstIP, PROTO_TCP, length % 0x1_0000, header.Octets(), payload);
        if length == 20 + |payload.Octets()| {
          TcpChecksum(bigEndian, ip.srcIP, ip.dstIP, header, checksum, payload);
        }
        header := header.(checksum := checksum);
      }
      TcpRewritten(j0, header0, header, payload.Octets());
      j := j0.WithL4Header(header.Octets());
      var ok := ip.UpdateL4Header(header.Octets(), j0, j, capacity);
      FramesFit(ip.packets, j, capacity);
    }
  }

  /** A receiver that gets all frames has the whole segment exactly when cutting it lost nothing; with an
      automatic checksum that segment is intact. */
  lemma TcpArrivesExactlyWhen(j: Job, header: TcpHeader, payload: seq<Byte>, arrived: seq<seq<Byte>>)
    requires j.Valid() && Arrives(arrived, j) && j.datagram == header.Octets() + payload
    ensures forall p | p in arrived :: Parsable(p)
    ensures var r := Reassemble(Received(arrived));
            && (r == Complete(header.Octets() + payload) <==> Conserves(|j.datagram|, j.room))
            && r.Complete?
            && (Conserves(|j.datagram|, j.room) ==>
                  (SegmentIntact(j.header.src, j.header.dst, 6, r.data)
                   <==> SegmentIntact(j.header.src, j.header.dst, 6, j.datagram)))
  {
    hide *;
    ReceiverReassembles(j, arrived);
    WholeDatagramArrivesExactlyWhen(j, arrived);
  }
}
