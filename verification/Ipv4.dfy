/** IPv4 datagrams: header compilation with its checksum, and the fragment loop over a list of frames. */
module Ipv4 {
  import opened Bytes
  import opened Checksum
  import opened Ethernet
  import opened Fragmentation

  const ETHERTYPE_IPV4: Word16 := 0x0800

  // ------------------------------------------------------------------------------------------
  // Headers
  // ------------------------------------------------------------------------------------------

  type Address = s: seq<Byte> | |s| == 4 witness [0, 0, 0, 0]

  datatype Header = Header(src: Address, dst: Address, ttl: Byte, protocol: Byte, dscp: nat, ecn: nat,
                           df: bool, mf: bool, offset: nat, totalLen: Word16, id: Word16, routerAlert: bool)
  {
    function Length(): nat {
      if routerAlert then 24 else 20
    }

    function FlagsOffset(): Word16 {
      (if df then 0x4000 else 0) + (if mf then 0x2000 else 0) + offset / 8 % 0x2000
    }

    /** In front of the checksum field. */
    function Front(): (s: seq<Byte>)
      ensures |s| == 10
    {
      [0x40 + Length() / 4 % 16, dscp % 64 * 4 + ecn % 4]
      + Be16(totalLen) + Be16(id) + Be16(FlagsOffset()) + [ttl, protocol]
    }

    /** Behind the checksum field; the router alert option is the one of RFC 2113. */
    function Back(): (s: seq<Byte>)
      ensures |s| == Length() - 12
    {
      src + dst + if routerAlert then [0x94, 4, 0, 0] else []
    }

    function WithChecksum(c: Word16): (s: seq<Byte>)
      ensures |s| == Length()
    {
      Front() + Be16(c) + Back()
    }

    function AutoChecksum(): Word16 {
      InternetChecksum(WithChecksum(0))
    }
  }

  /** The checksum is computed over the header with a zero checksum field, or set by the user. */
  method CompileHeader(bigEndian: bool, address: nat, h: Header, manualChksum: bool, manualChksumVal: Word16)
    returns (octets: seq<Byte>)
    requires h.offset % 8 == 0
    ensures octets == h.WithChecksum(if manualChksum then manualChksumVal else h.AutoChecksum())
  {
    hide NativeStore, InternetChecksum, Be16, StoredResult;
    octets := h.Front() + Be16(if manualChksum then manualChksumVal else 0) + h.Back();
    if !manualChksum {
      var r := Rfc1071(bigEndian, Part(address, octets), Null, Null);
      assert Joined(Part(address, octets), Null, Null) == octets;
      StoredResultIsChecksum(bigEndian, Part(address, octets), Null, Null);
      octets := h.Front() + NativeStore(bigEndian, r) + h.Back();
    }
  }

  /** A receiver finds every field where section 3.1 of RFC 791 puts it, and the router alert option of RFC 2113. */
  lemma HeaderFieldsRead(h: Header, c: Word16)
    ensures var s := h.WithChecksum(c);
            && |s| == (if h.routerAlert then 24 else 20) && s[0] / 16 == 4 && s[0] % 16 * 4 == |s|
            && s[1] / 4 == h.dscp % 64 && s[1] % 4 == h.ecn % 4
            && 256 * s[2] as int + s[3] as int == h.totalLen && 256 * s[4] as int + s[5] as int == h.id
            && s[6] / 128 == 0 && (s[6] / 64 % 2 == 1 <==> h.df) && (s[6] / 32 % 2 == 1 <==> h.mf)
            && 256 * (s[6] as int % 32) + s[7] as int == h.offset / 8 % 0x2000
            && s[8] == h.ttl && s[9] == h.protocol && 256 * s[10] as int + s[11] as int == c
            && s[12..16] == h.src && s[16..20] == h.dst && (h.routerAlert ==> s[20..] == [148, 4, 0, 0])
  {
    var s, f := h.WithChecksum(c), h.FlagsOffset();
    OctetsOf16(h.totalLen);
    OctetsOf16(h.id);
    OctetsOf16(c);
    FlagOctets(h);
    hide Be16, Header.FlagsOffset;
    assert s[..10] == h.Front() && s[10..12] == Be16(c) && s[12..] == h.Back();
    assert s[6] == Be16(f)[0] && s[7] == Be16(f)[1];
    assert s[12..16] == h.Back()[..4] && s[16..20] == h.Back()[4..8] && s[20..] == h.Back()[8..];
  }

  lemma FlagOctets(h: Header)
    ensures var s := Be16(h.FlagsOffset());
            && s[0] / 128 == 0 && (s[0] / 64 % 2 == 1 <==> h.df) && (s[0] / 32 % 2 == 1 <==> h.mf)
            && 256 * (s[0] as int % 32) + s[1] as int == h.offset / 8 % 0x2000
  {
    var o := h.offset / 8 % 0x2000;
    var flags := (if h.df then 2 else 0) + (if h.mf then 1 else 0);
    assert h.FlagsOffset() == 0x100 * (32 * flags + o / 0x100) + o % 0x100;
    assert Be16(h.FlagsOffset()) == [32 * flags + o / 0x100, o % 0x100];
  }

  /** Every automatically checksummed header verifies. */
  lemma HeaderVerifies(h: Header)
    ensures Verifies(h.WithChecksum(h.AutoChecksum()))
  {
    hide Verifies, InternetChecksum;
    assert Be16(0) == [0, 0];
    ChecksumVerifies(h.Front(), h.Back(), h.AutoChecksum());
  }

  /** A receiver can take the datagram apart: version 4, and lengths within what arrived. */
  predicate Parsable(p: seq<Byte>) {
    && |p| >= 20
    && p[0] / 16 == 4
    && 20 <= p[0] % 16 * 4 <= ReadBe16(p[2..4]) <= |p|
  }

  /** The receiver's check of the header checksum. */
  predicate HeaderIntact(p: seq<Byte>)
    requires Parsable(p)
  {
    Verifies(p[..p[0] % 16 * 4])
  }

  function ParseFragment(p: seq<Byte>): Fragment
    requires Parsable(p)
  {
    var flagsOffset := ReadBe16(p[6..8]);
    Fragment(ReadBe16(p[4..6]), p[12..16], p[16..20], p[9],
             flagsOffset % 0x2000 * 8, flagsOffset / 0x2000 % 2 == 1, p[p[0] % 16 * 4..ReadBe16(p[2..4])])
  }

  lemma FlagsOffsetParts(h: Header)
    requires h.offset % 8 == 0 && h.offset / 8 < 0x2000
    ensures h.FlagsOffset() % 0x2000 * 8 == h.offset
    ensures h.FlagsOffset() / 0x2000 % 2 == 1 <==> h.mf
  {
    var units := h.offset / 8;
    var flags := (if h.df then 2 else 0) + (if h.mf then 1 else 0);
    assert h.FlagsOffset() == flags * 0x2000 + units;
  }

  lemma ParseInvertsCompile(h: Header, c: Word16, data: seq<Byte>)
    requires h.offset % 8 == 0 && h.offset / 8 < 0x2000
    requires h.totalLen == h.Length() + |data|
    ensures Parsable(h.WithChecksum(c) + data)
    ensures c == h.AutoChecksum() ==> HeaderIntact(h.WithChecksum(c) + data)
    ensures ParseFragment(h.WithChecksum(c) + data) == Fragment(h.id, h.src, h.dst, h.protocol, h.offset, h.mf, data)
  {
    hide Be16, ReadBe16, Header.FlagsOffset, Verifies, InternetChecksum;
    var p := h.WithChecksum(c) + data;
    FlagsOffsetParts(h);
    assert p[..10] == h.Front();
    assert p[0] == h.Front()[0] == 0x40 + h.Length() / 4;
    assert p[2..4] == h.Front()[2..4] == Be16(h.totalLen);
    assert p[4..6] == h.Front()[4..6] == Be16(h.id);
    assert p[6..8] == h.Front()[6..8] == Be16(h.FlagsOffset());
    assert p[9] == h.Front()[9] == h.protocol;
    assert p[12..h.Length()] == h.Back();
    assert p[12..16] == h.Back()[..4] == h.src;
    assert p[16..20] == h.Back()[4..8] == h.dst;
    assert p[h.Length()..] == data;
    HeaderVerifies(h);
    assert p[..h.Length()] == h.WithChecksum(c);
  }

  // ------------------------------------------------------------------------------------------
  // What the fragment loop is to produce
  // ------------------------------------------------------------------------------------------

  /** One datagram to be sent: the frame every fragment starts from, the header fields they share, how many
      octets a frame has room for behind the IP header, and the octets of the datagram. */
  datatype Job = Job(base: Frame, header: Header, room: nat, manualChksum: bool, manualChksumVal: Word16, datagram: seq<Byte>)
  {
    /** Not too long for the length field. */
    predicate Encodable() {
      |datagram| + header.Length() <= 0xffff && room > 0
    }

    predicate Valid() {
      Encodable() && 0 < |datagram|
    }

    function Count(): nat
      requires Encodable()
    {
      FragmentCount(|datagram|, room)
    }

    /** All fragments of an empty datagram stand at its start. */
    function Offset(i: nat): nat {
      if datagram == [] then 0 else FragmentOffset(i, room)
    }

    function Piece(i: nat): seq<Byte>
      requires Encodable() && i < Count()
    {
      if datagram == [] then []
      else
        PieceFits(i, |datagram|, room);
        datagram[FragmentOffset(i, room)..FragmentOffset(i, room) + FragmentSize(i, |datagram|, room)]
    }

    function PieceHeader(i: nat): Header
      requires Encodable() && i < Count()
    {
      if datagram != [] then
        PieceFits(i, |datagram|, room);
        header.(mf := i + 1 != Count(), offset := Offset(i), totalLen := header.Length() + |Piece(i)|)
      else
        header.(mf := i + 1 != Count(), offset := Offset(i), totalLen := header.Length())
    }

    function PieceOctets(i: nat): seq<Byte>
      requires Encodable() && i < Count()
    {
      var h := PieceHeader(i);
      h.WithChecksum(if manualChksum then manualChksumVal else h.AutoChecksum()) + Piece(i)
    }

    function PieceFrame(i: nat): Frame
      requires Encodable() && i < Count()
    {
      base.(payload := PieceOctets(i))
    }

    function AllFrames(): (frames: seq<Frame>)
      requires Encodable()
      ensures |frames| == Count() && forall i | 0 <= i < Count() :: frames[i] == PieceFrame(i)
    {
      seq(Count(), i requires 0 <= i < Count() => PieceFrame(i))
    }

    /** Every fragment fits the frame buffer. */
    ghost predicate Fits(capacity: nat)
      requires Encodable()
    {
      forall i | 0 <= i < Count() :: PieceFrame(i).Length() <= capacity
    }

    /** The largest fragment is the first or the last one. */
    function Largest(): nat
      requires Valid() && Count() > 0
    {
      var first, last := FragmentSize(0, |datagram|, room), FragmentSize(Count() - 1, |datagram|, room);
      if first > last then first else last
    }

    /** The same job after the octets at the start of the datagram have been replaced. */
    function WithL4Header(l4header: seq<Byte>): Job
      requires |l4header| <= |datagram|
    {
      this.(datagram := l4header + datagram[|l4header|..])
    }

    /** The fragments a receiver reads out of the frames. */
    function Sent(i: nat): Fragment
      requires Encodable() && i < Count()
    {
      Fragment(header.id, header.src, header.dst, header.protocol, Offset(i), i + 1 != Count(), Piece(i))
    }
  }

  /** With at most one VLAN tag and no LLC header every fragment fits the buffer the constructor allocates;
      in general the largest fragment decides. */
  lemma FitsExactlyWhen(j: Job, mtu: nat)
    requires j.Valid() && mtu == j.header.Length() + j.room
    ensures j.Fits(mtu + 18) <==> 4 * |j.base.tags| + |j.base.llc| + j.Largest() <= j.room + 4
    ensures |j.base.tags| <= 1 && j.base.llc == [] ==> j.Fits(mtu + 18)
    ensures forall i | 0 <= i < j.Count() :: |j.PieceOctets(i)| <= mtu
  {
    hide FragmentOffset, FragmentCount, FragmentSize, Job.PieceOctets, Job.PieceFrame, Job.Piece;
    FirstOffset(|j.datagram|, j.room);
    var last := j.Count() - 1;
    forall i | 0 <= i < j.Count()
      ensures j.PieceFrame(i).Length() == j.base.PayloadAt() + |j.PieceOctets(i)|
      ensures |j.PieceOctets(i)| == j.header.Length() + FragmentSize(i, |j.datagram|, j.room) <= mtu
      ensures FragmentSize(i, |j.datagram|, j.room) <= j.Largest()
    {
      PieceLengths(j, i);
    }
    PieceLengths(j, 0);
    PieceLengths(j, last);
  }

  lemma PieceLengths(j: Job, i: nat)
    requires j.Valid() && i < j.Count()
    ensures |j.Piece(i)| == FragmentSize(i, |j.datagram|, j.room) <= j.room
    ensures |j.PieceOctets(i)| == j.header.Length() + |j.Piece(i)|
    ensures j.PieceFrame(i).Length() == j.base.PayloadAt() + |j.PieceOctets(i)|
    ensures FragmentSize(i, |j.datagram|, j.room) <= j.Largest()
  {
    hide FragmentOffset, FragmentCount, RoundDown8, Header.WithChecksum;
    PieceFits(i, |j.datagram|, j.room);
    PieceFits(0, |j.datagram|, j.room);
    PieceFits(j.Count() - 1, |j.datagram|, j.room);
  }

  lemma RewriteKeepsShape(j: Job, l4header: seq<Byte>)
    requires j.Valid() && |l4header| <= |j.datagram|
    ensures j.WithL4Header(l4header).Valid() && j.WithL4Header(l4header).Count() == j.Count()
  {
  }

  /** Replacing the first octets of the datagram changes the first fragment only; no IP header changes. */
  lemma RewriteFirstPiece(j: Job, j': Job, l4header: seq<Byte>)
    requires j.Valid() && |l4header| <= |j.datagram| && j' == j.WithL4Header(l4header)
    requires j'.Valid() && j'.Count() == j.Count() > 0 && |l4header| <= FragmentSize(0, |j.datagram|, j.room)
    ensures |j.PieceOctets(0)| == j.header.Length() + |j.Piece(0)| && |j.Piece(0)| >= |l4header|
    ensures j'.PieceOctets(0) == Spliced(j.PieceOctets(0), j.header.Length(), l4header)
  {
    hide Job.Piece, Job.PieceHeader, Job.Offset, FragmentSize, FragmentCount, Header.WithChecksum, Header.AutoChecksum, Spliced;
    CutPiece(j, 0);
    CutPiece(j', 0);
    PieceLengths(j, 0);
    assert j.datagram == j.datagram[..|l4header|] + j.datagram[|l4header|..];
    assert j'.Piece(0) == l4header + j.Piece(0)[|l4header|..];
    assert j'.PieceHeader(0) == j.PieceHeader(0);
    SplicedBehind(j.PieceOctets(0), j.header.Length(), j.Piece(0), l4header);
  }

  lemma SplicedBehind(s: seq<Byte>, at: nat, rest: seq<Byte>, data: seq<Byte>)
    requires |data| <= |rest| && |s| == at + |rest| && s[at..] == rest
    ensures Spliced(s, at, data) == s[..at] + (data + rest[|data|..])
  {
  }

  lemma RewriteLaterPiece(j: Job, j': Job, l4header: seq<Byte>, i: nat)
    requires j.Valid() && |l4header| <= |j.datagram| && j' == j.WithL4Header(l4header)
    requires j'.Valid() && j'.Count() == j.Count() > i > 0 && |l4header| <= FragmentSize(0, |j.datagram|, j.room)
    ensures j'.PieceFrame(i) == j.PieceFrame(i)
  {
    hide FragmentCount, RoundDown8, Header.WithChecksum, Header.AutoChecksum, FragmentSize;
    LaterPiecesBehind(i, |j.datagram|, j.room);
    PieceFits(i, |j.datagram|, j.room);
    assert j'.Piece(i) == j.Piece(i);
    assert j'.PieceHeader(i) == j.PieceHeader(i);
  }

  lemma OffsetFits13Bits(j: Job, i: nat)
    requires j.Encodable() && i < j.Count()
    ensures j.Offset(i) / 8 < 0x2000
  {
    CutPiece(j, i);
  }

  lemma SentIsReceived(j: Job, i: nat)
    requires j.Encodable() && i < j.Count()
    ensures Parsable(j.PieceOctets(i)) && ParseFragment(j.PieceOctets(i)) == j.Sent(i)
    ensures !j.manualChksum ==> HeaderIntact(j.PieceOctets(i))
  {
    hide Header.WithChecksum, Parsable, ParseFragment, HeaderIntact;
    var h := j.PieceHeader(i);
    CutPiece(j, i);
    OffsetFits13Bits(j, i);
    ParseInvertsCompile(h, if j.manualChksum then j.manualChksumVal else h.AutoChecksum(), j.Piece(i));
  }

  function AllSent(j: Job): (frags: seq<Fragment>)
    requires j.Encodable()
    ensures |frags| == j.Count() && forall i | 0 <= i < j.Count() :: frags[i] == j.Sent(i)
  {
    seq(j.Count(), i requires 0 <= i < j.Count() => j.Sent(i))
  }

  lemma AllSentWellFormed(j: Job)
    requires j.Valid()
    ensures WellFragmented(AllSent(j), j.datagram, Covered(|j.datagram|, j.room))
  {
    hide Covered;
    forall i | 0 <= i < j.Count()
      ensures IsPiece(AllSent(j)[i], i, j.datagram, j.room)
    {
      PieceFits(i, |j.datagram|, j.room);
    }
    FragmentsAreWellFormed(AllSent(j), j.datagram, j.room);
  }

  /** The payloads that reach a receiver: each is one of the job's, and none of the job's is missing. */
  ghost predicate Arrives(arrived: seq<seq<Byte>>, j: Job)
    requires j.Encodable()
  {
    && (forall p | p in arrived :: exists i :: 0 <= i < j.Count() && p == j.PieceOctets(i))
    && (forall i | 0 <= i < j.Count() :: j.PieceOctets(i) in arrived)
  }

  ghost function Received(arrived: seq<seq<Byte>>): (frags: seq<Fragment>)
    requires forall p | p in arrived :: Parsable(p)
    ensures |frags| == |arrived| && forall k | 0 <= k < |arrived| :: frags[k] == ParseFragment(arrived[k])
  {
    seq(|arrived|, k requires 0 <= k < |arrived| => ParseFragment(arrived[k]))
  }

  lemma EachArrivalParses(arrived: seq<seq<Byte>>, j: Job)
    requires j.Encodable() && Arrives(arrived, j)
    ensures forall p | p in arrived :: Parsable(p) && (!j.manualChksum ==> HeaderIntact(p))
    ensures forall f :: f in Received(arrived) <==> f in AllSent(j)
  {
    hide Parsable, ParseFragment, HeaderIntact, Job.PieceOctets, Job.Sent;
    forall p | p in arrived
      ensures Parsable(p) && (!j.manualChksum ==> HeaderIntact(p)) && ParseFragment(p) in AllSent(j)
    {
      var i :| 0 <= i < j.Count() && p == j.PieceOctets(i);
      SentIsReceived(j, i);
      assert ParseFragment(p) == AllSent(j)[i];
    }
    forall i | 0 <= i < j.Count()
      ensures AllSent(j)[i] in Received(arrived)
    {
      SentIsReceived(j, i);
      var k :| 0 <= k < |arrived| && arrived[k] == j.PieceOctets(i);
      assert Received(arrived)[k] == AllSent(j)[i];
    }
  }

  /** A receiver that gets the frames of a datagram, in any order and possibly repeated, verifies every
      automatic header checksum and reassembles the covered prefix of the datagram. */
  lemma ReceiverReassembles(j: Job, arrived: seq<seq<Byte>>)
    requires j.Valid() && Arrives(arrived, j)
    ensures forall p | p in arrived :: Parsable(p) && (!j.manualChksum ==> HeaderIntact(p))
    ensures Covered(|j.datagram|, j.room) <= |j.datagram|
    ensures Reassemble(Received(arrived)) == Complete(j.datagram[..Covered(|j.datagram|, j.room)])
  {
    hide Parsable, HeaderIntact, Reassemble, Covered, Arrives;
    EachArrivalParses(arrived, j);
    CoversAllExactlyWhen(|j.datagram|, j.room);
    AllSentWellFormed(j);
    ReassemblyUndoesFragmentation(Received(arrived), AllSent(j), j.datagram, Covered(|j.datagram|, j.room));
  }

  /** The whole datagram arrives exactly when the remainder for the last fragment fits one frame. */
  lemma WholeDatagramArrivesExactlyWhen(j: Job, arrived: seq<seq<Byte>>)
    requires j.Valid() && Arrives(arrived, j)
    ensures forall p | p in arrived :: Parsable(p)
    ensures Reassemble(Received(arrived)) == Complete(j.datagram) <==> Conserves(|j.datagram|, j.room)
  {
    hide Parsable, Reassemble, Covered, Arrives, Conserves;
    ReceiverReassembles(j, arrived);
    CoversAllExactlyWhen(|j.datagram|, j.room);
  }

  /** Two jobs a receiver can tell apart. */
  predicate DifferentKeys(j: Job, k: Job) {
    j.header.id != k.header.id || j.header.src != k.header.src || j.header.dst != k.header.dst
    || j.header.protocol != k.header.protocol
  }

  predicate ToldApart(jobs: seq<Job>) {
    && (forall k | 0 <= k < |jobs| :: jobs[k].Valid())
    && (forall k, l | 0 <= k < l < |jobs| :: DifferentKeys(jobs[k], jobs[l]))
  }

  /** The frames of several jobs, mixed in any way. */
  ghost predicate ArriveMixed(arrived: seq<seq<Byte>>, jobs: seq<Job>)
    requires ToldApart(jobs)
  {
    && (forall p | p in arrived :: exists m, i :: 0 <= m < |jobs| && 0 <= i < jobs[m].Count() && p == jobs[m].PieceOctets(i))
    && (forall m, i | 0 <= m < |jobs| && 0 <= i < jobs[m].Count() :: jobs[m].PieceOctets(i) in arrived)
  }

  lemma MixedArrivalsParse(arrived: seq<seq<Byte>>, jobs: seq<Job>)
    requires ToldApart(jobs) && ArriveMixed(arrived, jobs)
    ensures forall p | p in arrived :: Parsable(p)
  {
    hide Parsable, Job.PieceOctets;
    forall p | p in arrived
      ensures Parsable(p)
    {
      var m, i :| 0 <= m < |jobs| && 0 <= i < jobs[m].Count() && p == jobs[m].PieceOctets(i);
      SentIsReceived(jobs[m], i);
    }
  }

  /** Of everything that arrives, the fragments with the key of a job are exactly the job's own. */
  lemma KeySelectsJob(arrived: seq<seq<Byte>>, jobs: seq<Job>, m: nat, f: Fragment)
    requires ToldApart(jobs) && m < |jobs| && ArriveMixed(arrived, jobs) && forall p | p in arrived :: Parsable(p)
    ensures jobs[m].Count() > 0
    ensures f in Received(arrived) && SameDatagram(f, jobs[m].Sent(0)) <==> f in AllSent(jobs[m])
  {
    hide Parsable, ParseFragment, Job.PieceOctets, Job.Piece;
    var j := jobs[m];
    FirstOffset(|j.datagram|, j.room);
    if f in Received(arrived) && SameDatagram(f, j.Sent(0)) {
      var n :| 0 <= n < |arrived| && Received(arrived)[n] == f;
      assert arrived[n] in arrived;
      var k, i :| 0 <= k < |jobs| && 0 <= i < jobs[k].Count() && arrived[n] == jobs[k].PieceOctets(i);
      SentIsReceived(jobs[k], i);
      assert f == jobs[k].Sent(i);
      assert k == m;
      assert AllSent(j)[i] == f;
    }
    if f in AllSent(j) {
      var i :| 0 <= i < j.Count() && AllSent(j)[i] == f;
      SentIsReceived(j, i);
      var n :| 0 <= n < |arrived| && arrived[n] == j.PieceOctets(i);
      assert Received(arrived)[n] == f;
    }
  }

  /** Datagrams that differ in identification, an address or the protocol are reassembled each for itself, however
      their frames are mixed. */
  lemma MixedDatagramsArrive(arrived: seq<seq<Byte>>, jobs: seq<Job>, m: nat)
    requires ToldApart(jobs) && m < |jobs| && ArriveMixed(arrived, jobs)
    ensures forall p | p in arrived :: Parsable(p)
    ensures jobs[m].Count() > 0
    ensures Covered(|jobs[m].datagram|, jobs[m].room) <= |jobs[m].datagram|
    ensures Reassemble(Of(Received(arrived), jobs[m].Sent(0)))
            == Complete(jobs[m].datagram[..Covered(|jobs[m].datagram|, jobs[m].room)])
  {
    hide Parsable, Reassemble, Covered, ArriveMixed, SameDatagram, DifferentKeys, Job.Sent;
    MixedArrivalsParse(arrived, jobs);
    var j := jobs[m];
    FirstOffset(|j.datagram|, j.room);
    forall f: Fragment
      ensures f in Received(arrived) && SameDatagram(f, j.Sent(0)) <==> f in AllSent(j)
    {
      KeySelectsJob(arrived, jobs, m, f);
    }
    CoversAllExactlyWhen(|j.datagram|, j.room);
    AllSentWellFormed(j);
    InterleavedReassembly(Received(arrived), AllSent(j), j.Sent(0), j.datagram, Covered(|j.datagram|, j.room));
  }

  /** Frames for an MTU of at most 1504 octets are among those the queued sender leaves room for. */
  lemma FramesWithinSendQueueMaximum(j: Job, mtu: nat)
    requires j.Encodable() && j.Fits(mtu + 18) && j.base.WellFormed()
    requires mtu <= 1504
    ensures forall f | f in j.AllFrames() :: |f.Encode()| <= 1522
  {
    hide Job.PieceOctets, Frame.Encode, Frame.Length;
    forall f | f in j.AllFrames()
      ensures |f.Encode()| <= 1522
    {
      var i :| 0 <= i < j.Count() && f == j.AllFrames()[i];
      EncodeLength(j.PieceFrame(i));
    }
  }

  /** An empty datagram, when it is sent at all, arrives as an empty one; but it takes as many frames as the
      underflown count says, which is never one. */
  lemma EmptyDatagramArrives(j: Job, arrived: seq<seq<Byte>>)
    requires j.Encodable() && j.datagram == [] && j.Count() > 0 && j.room < 0x1_0000_0000 && Arrives(arrived, j)
    ensures forall p | p in arrived :: Parsable(p) && (!j.manualChksum ==> HeaderIntact(p))
    ensures Reassemble(Received(arrived)) == Complete([])
    ensures |j.AllFrames()| == j.Count() != 1
  {
    hide Parsable, HeaderIntact, FragmentCount, Arrives, AllSent;
    EachArrivalParses(arrived, j);
    CountRightExactlyWhen(0, j.room);
    var last := AllSent(j)[j.Count() - 1];
    assert last in Received(arrived);
    forall f | f in Received(arrived)
      ensures !f.more ==> f.offset + |f.data| == 0
    {
      assert f in AllSent(j);
      var i :| 0 <= i < j.Count() && f == AllSent(j)[i];
    }
    EmptyReassembles(Received(arrived), last);
  }

  // ------------------------------------------------------------------------------------------
  // The packet object
  // ------------------------------------------------------------------------------------------

  /** The counter all packets draw automatic identifications from. */
  class Identifications {
    var next: Word16

    constructor ()
      ensures next == 1
    {
      next := 1;
    }
  }

  /** Writes header and data into one frame; fails when the frame buffer is too small. */
  method WriteFragment(p: EthernetPacket, header: seq<Byte>, l4header: seq<Byte>, data: seq<Byte>) returns (ok: bool)
    requires p.Valid()
    modifies p`payloadLength, p`frame, p.packet
    ensures p.Valid()
    ensures ok <==> old(p.frame).PayloadAt() + |header| + |l4header| + |data| <= p.packetMaxLength
    ensures ok ==> p.frame == old(p.frame).(payload := header + (l4header + data))
  {
    hide Holds;
    ok := p.SetPayload(header);
    if !ok {
      return;
    }
    if |l4header| != 0 {
      ok := p.AppendPayload(l4header);
      if !ok {
        return;
      }
    }
    if |data| != 0 {
      ok := p.AppendPayload(data);
    }
    if ok {
      assert p.frame.payload == header + (l4header + data);
    }
  }

  lemma FirstOffset(length: nat, room: nat)
    requires 0 < length <= 0xffff && room > 0
    ensures FragmentCount(length, room) > 0 && FragmentOffset(0, room) == 0
  {
    CountBounds(length, room);
  }

  lemma FirstOffsetOf(j: Job)
    ensures j.Offset(0) == 0
  {
    NextOffset(0, j.room);
  }

  lemma CountPositive(j: Job)
    requires j.Encodable() && (j.datagram == [] ==> FragmentCount(0, j.room) > 0)
    ensures j.Count() > 0
  {
    if j.datagram != [] {
      FirstOffset(|j.datagram|, j.room);
    }
  }

  /** What one turn of the loop has to cut from the rest of the datagram, empty or not. */
  lemma CutPiece(j: Job, n: nat)
    requires j.Encodable() && n < j.Count()
    ensures j.Offset(n) <= |j.datagram| && j.Offset(n) % 8 == 0 && (n == 0 ==> j.Offset(n) == 0)
    ensures var left := |j.datagram| - j.Offset(n);
            var cut := if left > j.room then j.room else left;
            var size := if n + 1 != j.Count() then cut / 8 * 8 else cut;
            && j.Offset(n) + size <= |j.datagram| && |j.Piece(n)| == size
            && j.Piece(n) == j.datagram[j.Offset(n)..j.Offset(n) + size]
            && j.PieceHeader(n) == j.header.(mf := n + 1 != j.Count(), offset := j.Offset(n), totalLen := j.header.Length() + size)
            && (n + 1 < j.Count() ==> j.Offset(n + 1) == j.Offset(n) + size)
  {
    hide FragmentOffset, FragmentCount, FragmentSize, Covered;
    if j.datagram != [] {
      SizeByRemainder(n, |j.datagram|, j.room);
      PieceFits(n, |j.datagram|, j.room);
      NextOffset(n, j.room);
      NextOffset(0, j.room);
      if n + 1 < j.Count() {
        FullUntilLast(n, |j.datagram|, j.room);
      }
    }
  }

  lemma OctetsOf(j: Job, n: nat)
    requires j.Encodable() && n < j.Count()
    ensures var h := j.PieceHeader(n);
            j.PieceOctets(n) == h.WithChecksum(if j.manualChksum then j.manualChksumVal else h.AutoChecksum()) + j.Piece(n)
  {
  }

  lemma HeaderFitsPiece(j: Job, headerLen: nat)
    requires j.Encodable() && j.Count() > 0 && headerLen <= |j.datagram|
    requires headerLen <= j.room && (|j.datagram| > j.room ==> headerLen <= RoundDown8(j.room))
    ensures headerLen <= |j.Piece(0)|
  {
    if j.datagram != [] {
      HeaderFitsFirst(headerLen, |j.datagram|, j.room);
      PieceLengths(j, 0);
    }
  }

  lemma HeaderFitsFirst(headerLen: nat, length: nat, room: nat)
    requires 0 < length <= 0xffff && room > 0 && headerLen <= length && headerLen <= room
    requires length > room ==> headerLen <= RoundDown8(room)
    ensures FragmentCount(length, room) > 0 && headerLen <= FragmentSize(0, length, room)
  {
    CountBounds(length, room);
    NextOffset(0, room);
    var k := FragmentCount(length, room);
    if k > 1 {
      MulMonotone(1, k - 1, room);
    }
  }

  /** The objects of a list and their buffers are all different. */
  ghost predicate Separate(packets: seq<EthernetPacket>)
    reads packets
  {
    forall i, j | 0 <= i < j < |packets| :: packets[i] != packets[j] && packets[i].packet != packets[j].packet
  }

  ghost predicate AllValid(packets: seq<EthernetPacket>, capacity: nat)
    reads packets, set p | p in packets :: p.packet
  {
    forall i | 0 <= i < |packets| :: packets[i].Valid() && packets[i].packetMaxLength == capacity
  }

  ghost function Frames(packets: seq<EthernetPacket>): (frames: seq<Frame>)
    reads packets
    ensures |frames| == |packets| && forall i | 0 <= i < |packets| :: frames[i] == packets[i].frame
  {
    seq(|packets|, i requires 0 <= i < |packets| reads packets => packets[i].frame)
  }

  /** Writing one frame of the list leaves the others alone. */
  method WriteAt(packets: seq<EthernetPacket>, n: nat, p: EthernetPacket,
                 header: seq<Byte>, l4header: seq<Byte>, data: seq<Byte>, ghost capacity: nat) returns (ok: bool)
    requires n < |packets| && p == packets[n] && Separate(packets) && AllValid(packets, capacity)
    modifies p`payloadLength, p`frame, p.packet
    ensures Separate(packets) && AllValid(packets, capacity)
    ensures ok <==> old(p.frame).PayloadAt() + |header| + |l4header| + |data| <= capacity
    ensures ok ==> Frames(packets) == old(Frames(packets))[n := old(p.frame).(payload := header + (l4header + data))]
  {
    hide Holds;
    ok := WriteFragment(p, header, l4header, data);
  }

  lemma FramesFit(packets: seq<EthernetPacket>, j: Job, capacity: nat)
    requires j.Valid() && AllValid(packets, capacity) && Frames(packets) == j.AllFrames()
    ensures j.Fits(capacity)
  {
    forall i | 0 <= i < j.Count()
      ensures j.PieceFrame(i).Length() <= capacity
    {
      assert packets[i].frame == Frames(packets)[i] == j.PieceFrame(i);
    }
  }

  lemma LowBits(a: Byte, b: Byte, c: Byte)
    ensures (0x10000 * a as int + 0x100 * b as int + c as int) % 0x80_0000
            == 0x10000 * (a as int % 0x80) + 0x100 * b as int + c as int
  {
    var k, r := a as int / 0x80, a as int % 0x80;
    assert 0x10000 * a as int + 0x100 * b as int + c as int == 0x80_0000 * k + (0x10000 * r + 0x100 * b as int + c as int);
  }

  class IpPacket {
    var mtu: nat
    var packets: seq<EthernetPacket>
    var dscp: nat
    var ecn: nat
    var ttl: Byte
    var srcIP: Address
    var dstIP: Address
    var dontFragment: bool
    var identification: Word16
    var hasId: bool
    var hasRouterAlertOption: bool
    var hasChksum: bool
    var chksum: Word16

    constructor (mtu: nat)
      ensures this.mtu == mtu && |packets| == 1 && fresh(packets[0]) && fresh(packets[0].packet)
      ensures packets[0].Valid() && packets[0].frame == EMPTY_FRAME.(typeLength := 0x0800)
      ensures packets[0].packetMaxLength == mtu + 18 && !packets[0].hasDMAC
      ensures !hasId && identification == 0 && !hasRouterAlertOption && !hasChksum && !dontFragment
    {
      var first := new EthernetPacket(mtu + MAC_HEADER_SIZE + 4);
      first.SetTypeLength(ETHERTYPE_IPV4);
      this.mtu := mtu;
      packets := [first];
      dscp, ecn, ttl := 0, 0, 1;
      srcIP, dstIP := [0, 0, 0, 0], [0, 0, 0, 0];
      dontFragment, identification, hasId := false, 0, false;
      hasRouterAlertOption, hasChksum, chksum := false, false, 0;
    }

    function HeaderLength(): nat
      reads this`hasRouterAlertOption
    {
      if hasRouterAlertOption then 24 else 20
    }

    /** Class D addresses; the frame's destination is then derived from the address (section 6.4 of RFC 1112). */
    predicate ToMulticast()
      reads this`dstIP
    {
      dstIP[0] / 16 == 14
    }

    /** The group address of section 6.4 of RFC 1112: 01-00-5e and the lowest 23 bits. */
    function MulticastMac(): (m: seq<Byte>)
      reads this`dstIP
      ensures |m| == 6 && m[..3] == [0x01, 0x00, 0x5e]
      ensures 0x10000 * m[3] as int + 0x100 * m[4] as int + m[5] as int
              == (0x10000 * dstIP[1] as int + 0x100 * dstIP[2] as int + dstIP[3] as int) % 0x80_0000
    {
      LowBits(dstIP[1], dstIP[2], dstIP[3]);
      [1, 0, 0x5e, dstIP[1] % 0x80, dstIP[2], dstIP[3]]
    }

    /** The frame every fragment starts from. */
    ghost function BaseFrame(): Frame
      requires |packets| > 0
      reads this, packets
    {
      if !packets[0].hasDMAC && ToMulticast() then packets[0].frame.(dst := MulticastMac()) else packets[0].frame
    }

    /** What every datagram of this packet has in common. */
    ghost function Template(id: Word16, protocol: Byte): Job
      requires |packets| > 0 && mtu > HeaderLength()
      reads this, packets
    {
      var h := Header(srcIP, dstIP, ttl, protocol, dscp, ecn, dontFragment, false, 0, 0, id, hasRouterAlertOption);
      Job(BaseFrame(), h, mtu - HeaderLength(), hasChksum, chksum, [])
    }

    ghost function JobFor(id: Word16, protocol: Byte, datagram: seq<Byte>): (j: Job)
      requires |packets| > 0 && mtu > HeaderLength()
      reads this, packets
      ensures j.header.id == id && j.header.protocol == protocol && j.header.src == srcIP && j.header.dst == dstIP
      ensures j.header.Length() == HeaderLength() && j.room == mtu - HeaderLength()
      ensures j.header.ttl == ttl && j.header.dscp == dscp && j.header.ecn == ecn && j.header.df == dontFragment
      ensures j.header.routerAlert == hasRouterAlertOption && j.manualChksum == hasChksum && j.manualChksumVal == chksum
      ensures j == Template(id, protocol).(datagram := datagram)
    {
      Template(id, protocol).(datagram := datagram)
    }

    /** Derives the destination address of the frame from a multicast IP address, unless it is set. */
    method ToMulticastMac()
      requires |packets| == 1 && packets[0].Valid()
      modifies packets[0], packets[0].packet
      ensures packets[0].Valid() && packets[0].frame == old(BaseFrame())
      ensures packets[0].frame.dst ==
              if !old(packets[0].hasDMAC) && 224 <= dstIP[0] <= 239 then MulticastMac() else old(packets[0].frame.dst)
      ensures packets[0].packetMaxLength == old(packets[0].packetMaxLength) && packets[0].packet == old(packets[0].packet)
    {
      if !packets[0].hasDMAC && ToMulticast() {
        packets[0].SetDestMac(MulticastMac());
      }
    }

    /** Appends copies of the first frame. */
    method Duplicate(fragCnt: nat)
      requires |packets| == 1 && packets[0].Valid() && fragCnt > 0
      modifies this`packets
      ensures |packets| == fragCnt && packets[0] == old(packets[0])
      ensures forall i | 0 < i < fragCnt :: fresh(packets[i]) && fresh(packets[i].packet)
      ensures Separate(packets) && AllValid(packets, packets[0].packetMaxLength)
      ensures forall i | 0 <= i < fragCnt :: Frames(packets)[i] == packets[0].frame
    {
      hide Holds;
      var n := 1;
      while n < fragCnt
        invariant 1 <= n <= fragCnt && |packets| == n && packets[0] == old(packets[0])
        invariant forall i | 0 < i < n :: fresh(packets[i]) && fresh(packets[i].packet)
        invariant Separate(packets) && AllValid(packets, packets[0].packetMaxLength)
        invariant forall i | 0 <= i < n :: packets[i].frame == packets[0].frame
      {
        var copy := new EthernetPacket.Copy(packets[0]);
        packets := packets + [copy];
        n := n + 1;
      }
    }

    /** The fragment loop over the prepared copies of the first frame. */
    method CompileFragments(bigEndian: bool, h: Header, room: nat, l4header: seq<Byte>, payload0: seq<Byte>,
                            ghost capacity: nat, ghost j: Job)
      returns (ok: bool)
      requires j.Encodable() && j.Count() > 0 && j.header == h && j.room == room && j.datagram == l4header + payload0
      requires j.manualChksum == hasChksum && j.manualChksumVal == chksum
      requires |l4header| <= room && (|j.datagram| > room ==> |l4header| <= RoundDown8(room))
      requires |packets| == j.Count() && Separate(packets) && AllValid(packets, capacity)
      requires forall i | 0 <= i < |packets| :: Frames(packets)[i] == j.base
      modifies packets`payloadLength, packets`frame, set p | p in packets :: p.packet
      ensures Separate(packets) && AllValid(packets, capacity)
      ensures ok <==> j.Fits(capacity)
      ensures ok ==> Frames(packets) == j.AllFrames()
    {
      hide Separate, AllValid, Job.Offset, FragmentCount, Job.PieceOctets, RoundDown8, Holds, EthernetPacket.Valid;
      FirstOffsetOf(j);
      ok := true;
      var payload, offset, n := payload0, 0, 0;
      while n < |packets|
        invariant 0 <= n <= |packets| && ok
        invariant Separate(packets) && AllValid(packets, capacity)
        invariant forall i | n <= i < |packets| :: Frames(packets)[i] == j.base
        invariant forall i | 0 <= i < n :: Frames(packets)[i] == j.PieceFrame(i) && j.PieceFrame(i).Length() <= capacity
        invariant n < |packets| ==> offset == j.Offset(n) <= |j.datagram|
        invariant n == 0 ==> payload == payload0
        invariant 0 < n < |packets| ==> payload == j.datagram[offset..]
      {
        var header, l4, data;
        header, l4, data, payload, offset := NextFragment(bigEndian, h, room, l4header, payload, offset, n, |packets|, j);
        assert packets[n].frame == Frames(packets)[n] == j.base;
        assert j.PieceFrame(n).Length() == j.base.PayloadAt() + |header + (l4 + data)|;
        ok := WriteAt(packets, n, packets[n], header, l4, data, capacity);
        if !ok {
          assert j.PieceFrame(n).Length() > capacity;
          return;
        }
        n := n + 1;
      }
    }

    /** One turn of the loop: the header and data of fragment n and what is left afterwards. */
    method NextFragment(bigEndian: bool, h: Header, room: nat, l4header: seq<Byte>, payload: seq<Byte>, offset: nat,
                        n: nat, count: nat, ghost j: Job)
      returns (header: seq<Byte>, l4: seq<Byte>, data: seq<Byte>, payload': seq<Byte>, offset': nat)
      requires j.Encodable() && j.header == h && j.room == room && n < count == j.Count()
      requires j.manualChksum == hasChksum && j.manualChksumVal == chksum
      requires offset == j.Offset(n) <= |j.datagram|
      requires |l4header| <= room && (|j.datagram| > room ==> |l4header| <= RoundDown8(room))
      requires if n == 0 then j.datagram == l4header + payload else payload == j.datagram[offset..]
      ensures header + (l4 + data) == j.PieceOctets(n)
      ensures n + 1 < count ==> offset' == j.Offset(n + 1) <= |j.datagram| && payload' == j.datagram[offset'..]
    {
      hide FragmentCount, Header.WithChecksum, Header.AutoChecksum, RoundDown8;
      hide Job.Piece, Job.Offset, Job.PieceHeader, Job.PieceOctets;
      CutPiece(j, n);
      OctetsOf(j, n);
      var left := if n == 0 then |l4header| + |payload| else |payload|;
      var fragLen := if left > room then room else left;
      if n + 1 != count {
        fragLen := fragLen / 8 * 8;
      }
      header := CompileHeader(bigEndian, 0, h.(mf := n + 1 != count, offset := offset, totalLen := h.Length() + fragLen),
                              hasChksum, chksum);
      if n == 0 {
        HeaderFitsPiece(j, |l4header|);
      }
      l4, data, payload', offset' := TakeData(n, l4header, payload, offset, fragLen, j.datagram);
    }

    /** The layer-4 header goes into the first fragment, followed by as much payload as belongs to it. */
    method TakeData(n: nat, l4header: seq<Byte>, payload: seq<Byte>, offset: nat, fragLen0: nat, ghost datagram: seq<Byte>)
      returns (l4: seq<Byte>, data: seq<Byte>, payload': seq<Byte>, offset': nat)
      requires offset + fragLen0 <= |datagram| && (n == 0 ==> offset == 0 && |l4header| <= fragLen0)
      requires if n == 0 then datagram == l4header + payload else payload == datagram[offset..]
      ensures l4 + data == datagram[offset..offset + fragLen0]
      ensures offset' == offset + fragLen0 && payload' == datagram[offset'..]
    {
      var fragLen := fragLen0;
      if n == 0 {
        fragLen := fragLen - |l4header|;
        l4, data := l4header, payload[..fragLen];
        offset' := offset + fragLen + |l4header|;
      } else {
        l4, data := [], payload[..fragLen];
        offset' := offset + fragLen;
      }
      payload' := payload[fragLen..];
    }

    /** Everything after the choice of the identification. */
    method CompileAs(id: Word16, bigEndian: bool, protocol: Byte, l4header: seq<Byte>, payload: seq<Byte>, ghost j: Job)
      returns (ok: bool)
      requires |packets| == 1 && packets[0].Valid() && mtu > HeaderLength()
      requires j == JobFor(id, protocol, l4header + payload) && j.Encodable() && j.Count() > 0
      requires |l4header| <= j.room && (|j.datagram| > j.room ==> |l4header| <= RoundDown8(j.room))
      modifies this`packets, packets[0], packets[0].packet
      ensures ok <==> j.Fits(old(packets[0].packetMaxLength))
      ensures ok ==> Separate(packets) && AllValid(packets, old(packets[0].packetMaxLength))
      ensures ok ==> |packets| > 0 && packets[0] == old(packets[0]) && packets[0].packet == old(packets[0].packet)
      ensures ok ==> Frames(packets) == j.AllFrames()
    {
      hide Separate, AllValid, Holds, EthernetPacket.Valid, FragmentOffset, FragmentCount, RoundDown8, Job.PieceFrame;
      hide Job.Fits, Job.AllFrames;
      ghost var capacity := packets[0].packetMaxLength;
      var fragCnt := FragmentCount(|l4header| + |payload|, mtu - HeaderLength());
      var h := Header(srcIP, dstIP, ttl, protocol, dscp, ecn, dontFragment, false, 0, 0, id, hasRouterAlertOption);
      ToMulticastMac();
      Duplicate(fragCnt);
      ok := CompileFragments(bigEndian, h, mtu - HeaderLength(), l4header, payload, capacity, j);
    }

    /** Fails (range exception) for more than 65535 octets or when a fragment does not fit its frame buffer.
        The layer-4 header has to fit the first fragment. */
    method V4Compile(ids: Identifications, bigEndian: bool, protocol: Byte, l4header: seq<Byte>, payload: seq<Byte>)
      returns (ok: bool, ghost j: Job)
      requires |packets| == 1 && packets[0].Valid()
      requires mtu > HeaderLength()
      requires |l4header + payload| == 0 ==> FragmentCount(0, mtu - HeaderLength()) > 0
      requires |l4header| <= mtu - HeaderLength()
      requires |l4header + payload| > mtu - HeaderLength() ==> |l4header| <= RoundDown8(mtu - HeaderLength())
      modifies this`packets, packets[0], packets[0].packet, ids
      ensures var auto := !hasId && j.Encodable() && j.Count() > 1;
              && j == old(JobFor(if auto then ids.next else identification, protocol, l4header + payload))
              && ids.next == (if auto then (old(ids.next) + 1) % U16 else old(ids.next))
      ensures ok <==> j.Encodable() && j.Fits(old(packets[0].packetMaxLength))
      ensures ok ==> Separate(packets) && AllValid(packets, old(packets[0].packetMaxLength))
      ensures ok ==> |packets| > 0 && packets[0] == old(packets[0]) && packets[0].packet == old(packets[0].packet)
      ensures ok ==> Frames(packets) == j.AllFrames()
    {
      hide Separate, AllValid, Holds, EthernetPacket.Valid, FragmentOffset, FragmentCount, RoundDown8, Job.PieceFrame;
      hide Job.Fits, Job.AllFrames;
      var id := identification;
      j := JobFor(id, protocol, l4header + payload);
      if |l4header| + |payload| + HeaderLength() > 0xffff {
        return false, j;
      }
      CountPositive(j);
      var fragCnt := FragmentCount(|l4header| + |payload|, mtu - HeaderLength());
      if fragCnt > 1 && !hasId {
        id := ids.next;
        j := JobFor(id, protocol, l4header + payload);
        ids.next := (ids.next + 1) % U16;
      }
      ok := CompileAs(id, bigEndian, protocol, l4header, payload, j);
    }

    /** How many octets follow the IP headers of all frames. Each frame holds more than its header, or the
        program stops. */
    method GetPayloadLength(ghost j: Job, ghost capacity: nat) returns (length: nat)
      requires j.Valid() && j.header.Length() == HeaderLength()
      requires AllValid(packets, capacity) && Frames(packets) == j.AllFrames()
      requires j.Count() > 1 ==> RoundDown8(j.room) > 0
      ensures length == Covered(|j.datagram|, j.room)
    {
      hide FragmentOffset, FragmentCount, RoundDown8, Holds, Covered, Header.WithChecksum;
      FirstOffset(|j.datagram|, j.room);
      length := 0;
      var n := 0;
      while n < |packets|
        invariant 0 <= n <= |packets|
        invariant length == if n < |packets| then FragmentOffset(n, j.room) else Covered(|j.datagram|, j.room)
      {
        assert packets[n].frame == Frames(packets)[n] == j.PieceFrame(n);
        PieceFits(n, |j.datagram|, j.room);
        NextOffset(n, j.room);
        assert packets[n].payloadLength > HeaderLength() by { PieceNotEmpty(n, |j.datagram|, j.room); }
        length := length + packets[n].payloadLength - HeaderLength();
        n := n + 1;
      }
    }

    /** Replaces the layer-4 header in the first frame. */
    method UpdateL4Header(l4header: seq<Byte>, ghost j: Job, ghost j': Job, ghost capacity: nat)
      returns (ok: bool)
      requires j.Valid() && j.header.Length() == HeaderLength() && 0 < |l4header| <= |j.datagram|
      requires j.Count() > 0 && |l4header| <= FragmentSize(0, |j.datagram|, j.room)
      requires j' == j.WithL4Header(l4header)
      requires |packets| > 0 && Separate(packets) && AllValid(packets, capacity) && Frames(packets) == j.AllFrames()
      modifies packets[0], packets[0].packet
      ensures ok
      ensures Separate(packets) && AllValid(packets, capacity)
      ensures j'.Valid() && Frames(packets) == j'.AllFrames()
    {
      hide Holds, FragmentSize, FragmentOffset, Header.WithChecksum, Spliced, Job.PieceOctets;
      var packet := packets[0];
      assert packet.frame == Frames(packets)[0] == j.PieceFrame(0);
      RewriteKeepsShape(j, l4header);
      RewriteFirstPiece(j, j', l4header);
      assert packet.payloadLength > HeaderLength();
      ok := packet.UpdatePayloadAt(HeaderLength(), l4header);
      forall i | 0 <= i < |packets|
        ensures packets[i].frame == j'.PieceFrame(i)
      {
        if i > 0 {
          RewriteLaterPiece(j, j', l4header, i);
          assert packets[i].frame == old(Frames(packets))[i];
        }
      }
    }
  }
}
