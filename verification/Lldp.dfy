/** Link Layer Discovery Protocol frames: building TLVs in fixed arrays, compiling them, and the receiver's
    view of the result (clause 8 of IEEE 802.1AB-2016). */
module Lldp {
  import opened Bytes
  import Ethernet
  import ByteArray

  const ETHERTYPE_LLDP: Word16 := 0x88cc
  const LLDP_MULTICAST: seq<Byte> := [1, 0x80, 0xc2, 0, 0, 0x0e]
  const CHASSIS_ID: Byte := 1
  const MGT_ADDR: Byte := 8
  const OUI: Byte := 127
  const OID_802_1: seq<Byte> := [0x00, 0x80, 0xc2]
  const CDCP: Byte := 14

  datatype Tlv = Tlv(kind: Byte, value: seq<Byte>) {
    /** Type and length fit their 7 and 9 bits, and the type does not end the list. */
    predicate Encodable() {
      1 <= kind <= 127 && |value| <= 511
    }

    function Header(): (s: seq<Byte>)
      ensures |s| == 2
    {
      Be16(kind % 0x80 * 0x200 + |value| % 0x200)
    }

    function Octets(): seq<Byte> {
      Header() + value
    }
  }

  const END: seq<Byte> := [0, 0]

  function Encoded(tlvs: seq<Tlv>): seq<Byte> {
    if tlvs == [] then [] else tlvs[0].Octets() + Encoded(tlvs[1..])
  }

  // ------------------------------------------------------------------------------------------
  // The receiver
  // ------------------------------------------------------------------------------------------

  datatype Decoded = Malformed | Pdu(tlvs: seq<Tlv>, rest: seq<Byte>)

  /** Reads TLVs up to the End TLV, which has type and length zero. */
  function Decode(p: seq<Byte>): Decoded
    decreases |p|
  {
    if |p| < 2 then Malformed
    else
      var header := ReadBe16(p[..2]);
      var kind, len := header / 0x200, header % 0x200;
      if kind == 0 then (if len == 0 then Pdu([], p[2..]) else Malformed)
      else if |p| < 2 + len then Malformed
      else
        var d := Decode(p[2 + len..]);
        if d.Malformed? then Malformed else Pdu([Tlv(kind, p[2..2 + len])] + d.tlvs, d.rest)
  }

  lemma HeaderFields(t: Tlv)
    ensures ReadBe16(t.Header()) / 0x200 == t.kind % 0x80 && ReadBe16(t.Header()) % 0x200 == |t.value| % 0x200
  {
  }

  lemma OctetsParts(t: Tlv, p: seq<Byte>)
    ensures var s := t.Octets() + p;
            && |s| == 2 + |t.value| + |p| && s[..2] == t.Header()
            && s[2..2 + |t.value|] == t.value && s[2 + |t.value|..] == p
  {
    hide Be16, Tlv.Header;
  }

  /** An encodable TLV is read back and leaves the rest. */
  lemma DecodeOne(t: Tlv, p: seq<Byte>)
    requires t.Encodable()
    ensures Decode(t.Octets() + p) ==
            if Decode(p).Malformed? then Malformed else Pdu([t] + Decode(p).tlvs, Decode(p).rest)
  {
    hide ReadBe16, Tlv.Header, Tlv.Octets, Tlv.Encodable;
    EncodableHeader(t);
    OctetsParts(t, p);
    assert (t.Octets() + p)[..2] == t.Header();
  }

  lemma EncodableHeader(t: Tlv)
    requires t.Encodable()
    ensures ReadBe16(t.Header()) / 0x200 == t.kind > 0 && ReadBe16(t.Header()) % 0x200 == |t.value|
  {
    hide ReadBe16, Tlv.Header;
    HeaderFields(t);
  }

  /** Any other TLV is read as something else. */
  lemma DecodeOther(t: Tlv, p: seq<Byte>, rest: seq<Tlv>)
    requires !t.Encodable()
    ensures Decode(t.Octets() + p) != Pdu([t] + rest, [])
  {
    hide ReadBe16, Tlv.Header, Tlv.Octets;
    HeaderFields(t);
    OctetsParts(t, p);
    assert ([t] + rest)[0] == t;
  }

  /** Decoding gives back the TLVs in order exactly when each of them fits its header and none ends the list. */
  lemma {:induction false} DecodesExactlyWhenEncodable(tlvs: seq<Tlv>)
    ensures Decode(Encoded(tlvs) + END) == Pdu(tlvs, []) <==> forall t | t in tlvs :: t.Encodable()
  {
    hide Decode, Tlv.Encodable, Tlv.Octets;
    if tlvs == [] {
      DecodeEnd();
      assert Encoded(tlvs) + END == END;
    } else {
      var t, rest := tlvs[0], tlvs[1..];
      var p := Encoded(rest) + END;
      assert Encoded(tlvs) + END == t.Octets() + p;
      assert tlvs == [t] + rest;
      if t.Encodable() {
        DecodeOne(t, p);
        DecodesExactlyWhenEncodable(rest);
        if Decode(p).Pdu? {
          PrependInjective(t, Decode(p), rest);
        }
      } else {
        DecodeOther(t, p, rest);
      }
    }
  }

  lemma DecodeEnd()
    ensures Decode(END) == Pdu([], [])
  {
    assert END[..2] == END && END[2..] == [];
  }

  lemma PrependInjective(t: Tlv, d: Decoded, rest: seq<Tlv>)
    requires d.Pdu?
    ensures [t] + d.tlvs == [t] + rest <==> d.tlvs == rest
  {
    assert ([t] + d.tlvs)[1..] == d.tlvs && ([t] + rest)[1..] == rest;
  }

  // ------------------------------------------------------------------------------------------
  // The packet
  // ------------------------------------------------------------------------------------------

  class LldpPacket {
    const eth: Ethernet.EthernetPacket
    var tlvs: seq<Tlv>

    constructor (eth: Ethernet.EthernetPacket)
      ensures this.eth == eth && tlvs == []
    {
      this.eth := eth;
      tlvs := [];
    }

    /** All builders fill a fixed array whose size was computed beforehand, part by part; exactly then nothing
        is refused and nothing stays unset. */
    method Build(kind: Byte, size: nat, parts: seq<seq<Byte>>) returns (filled: bool)
      modifies this`tlvs
      ensures filled <==> size == |Concat(parts)|
      ensures tlvs == if |Concat(parts)| <= size then old(tlvs) + [Tlv(kind, Concat(parts))] else old(tlvs)
    {
      var value := new ByteArray.ByteArray.Fixed(size);
      var ok, i := true, 0;
      while i < |parts| && ok
        invariant 0 <= i <= |parts| && tlvs == old(tlvs)
        invariant value.Valid() && fresh(value) && fresh(value.data) && !value.dynSize && value.capacity == size
        invariant ok ==> value.Contents() == Concat(parts[..i])
        invariant !ok ==> i > 0 && size < |Concat(parts[..i])|
      {
        ok := value.Append(parts[i]);
        assert parts[..i + 1][..i] == parts[..i];
        i := i + 1;
      }
      assert parts[..|parts|] == parts;
      if !ok {
        ConcatGrows(parts, i);
      }
      filled := ok && value.currPos == value.capacity;
      if ok {
        tlvs := tlvs + [Tlv(kind, value.data[..value.currPos])];
      }
    }

    /** Any builder: allocates, appends its parts, and adds the TLV. */
    method AddBuilt(b: Builder, kind: Byte, parts: seq<seq<Byte>>) returns (filled: bool)
      requires Lengths(parts) == PartLengths(b)
      modifies this`tlvs
      ensures filled <==> !b.PnNmeManagementAddr?
      ensures tlvs == old(tlvs) + [Tlv(kind, Concat(parts))]
    {
      hide PartLengths, Allocated, Concat;
      FillsExactlyWhen(b, parts);
      filled := Build(kind, Allocated(b), parts);
    }

    method AddChassisID(subtype: Byte, id: seq<Byte>) returns (filled: bool)
      modifies this`tlvs
      ensures filled && tlvs == old(tlvs) + [Tlv(1, [subtype] + id)]
    {
      var parts := [[subtype]];
      Concat1([subtype]);
      ConcatSnoc(parts, id);
      filled := Build(CHASSIS_ID, |id| + 1, parts + [id]);
    }

    method AddManagementAddress(subtype: Byte, addr: seq<Byte>, ifNbSubtype: Byte, ifNumber: Word32, oid: seq<Byte>)
      returns (filled: bool)
      requires |addr| < 256 && |oid| < 256
      modifies this`tlvs
      ensures filled
      ensures tlvs == old(tlvs) + [Tlv(8, [(|addr| + 1) % 256, subtype] + addr
                                          + ([ifNbSubtype] + Be32(ifNumber) + [|oid|]) + oid)]
    {
      hide Be32;
      var head := [(|addr| + 1) % 256, subtype];
      var number := [ifNbSubtype] + Be32(ifNumber) + [|oid|];
      Concat1(head);
      ConcatSnoc([head], addr);
      ConcatSnoc([head] + [addr], number);
      ConcatSnoc([head] + [addr] + [number], oid);
      filled := Build(MGT_ADDR, 1 + 1 + |addr| + 1 + 4 + 1 + |oid|, [head] + [addr] + [number] + [oid]);
    }

    /** Packs pairs of 12-bit channel and VLAN identifiers into three octets each. */
    method AddCDCP(role: bool, sComp: bool, chnCap: Word16, pairs: seq<(Word16, Word16)>) returns (filled: bool)
      modifies this`tlvs
      ensures filled
      ensures tlvs == old(tlvs) + [Tlv(127, CdcpHead(role, sComp, chnCap) + Packed(pairs))]
    {
      hide CdcpHead, Triple;
      var parts := [CdcpHead(role, sComp, chnCap)];
      Concat1(CdcpHead(role, sComp, chnCap));
      var n := 0;
      while n < |pairs|
        invariant 0 <= n <= |pairs| && tlvs == old(tlvs)
        invariant Concat(parts) == CdcpHead(role, sComp, chnCap) + Packed(pairs[..n])
      {
        ConcatSnoc(parts, Triple(pairs[n].0, pairs[n].1));
        parts := parts + [Triple(pairs[n].0, pairs[n].1)];
        assert pairs[..n + 1][..n] == pairs[..n];
        n := n + 1;
      }
      assert pairs[..n] == pairs;
      PackedLength(pairs);
      filled := Build(OUI, 3 + 1 + 4 + |pairs| * 3, parts);
    }

    method AppendTlv(t: Tlv) returns (ok: bool)
      requires eth.Valid()
      modifies eth`payloadLength, eth`frame, eth.packet
      ensures eth.Valid()
      ensures ok <==> old(eth.frame).Length() + |t.Octets()| <= eth.packetMaxLength
      ensures ok ==> eth.frame == old(eth.frame).(payload := old(eth.frame).payload + t.Octets())
    {
      hide Ethernet.Holds, Tlv.Header;
      ok := eth.AppendPayload(t.Header());
      if ok {
        ok := eth.AppendPayload(t.value);
        assert old(eth.frame).payload + t.Header() + t.value == old(eth.frame).payload + t.Octets();
      }
    }

    /** Compiles all TLVs into the frame; fails when the frame buffer is too small. */
    method Compile(withEndTlv: bool) returns (ok: bool)
      requires eth.Valid() && eth.frame.payload == []
      modifies eth, eth.packet
      ensures eth.Valid()
      ensures var payload := Encoded(tlvs) + if withEndTlv then END else [];
              && (ok <==> old(eth.frame).PayloadAt() + |payload| <= old(eth.packetMaxLength))
              && (ok ==> eth.frame == old(eth.frame).(payload := payload, typeLength := 0x88cc,
                           dst := if old(eth.hasDMAC) then old(eth.frame).dst else [1, 0x80, 0xc2, 0, 0, 0x0e]))
    {
      hide Ethernet.Holds, Ethernet.EthernetPacket.Valid, Tlv.Octets, Encoded;
      NothingEncoded();
      if !eth.hasDMAC {
        eth.SetDestMac(LLDP_MULTICAST);
      }
      eth.SetTypeLength(ETHERTYPE_LLDP);
      ghost var base := eth.frame;
      ok := true;
      var i := 0;
      while i < |tlvs|
        invariant 0 <= i <= |tlvs| && eth.Valid() && ok
        invariant eth.packet == old(eth.packet) && eth.packetMaxLength == old(eth.packetMaxLength)
        invariant eth.frame == base.(payload := Encoded(tlvs[..i]))
      {
        EncodedSnoc(tlvs, i);
        EncodedGrows(tlvs, i + 1);
        ok := AppendTlv(tlvs[i]);
        if !ok {
          return;
        }
        i := i + 1;
      }
      assert tlvs[..i] == tlvs;
      LengthKept(eth);
      if withEndTlv {
        ok := eth.AppendPayload(END);
      } else {
        assert Encoded(tlvs) + [] == Encoded(tlvs);
      }
    }
  }

  lemma NothingEncoded()
    ensures Encoded([]) == []
  {
  }

  lemma LengthKept(eth: Ethernet.EthernetPacket)
    requires eth.Valid()
    ensures eth.GetLength() == eth.frame.Length() <= eth.packetMaxLength
  {
    hide Ethernet.Holds;
  }

  lemma {:induction false} EncodedSnoc(tlvs: seq<Tlv>, i: nat)
    requires i < |tlvs|
    ensures Encoded(tlvs[..i + 1]) == Encoded(tlvs[..i]) + tlvs[i].Octets()
  {
    hide Tlv.Octets;
    if i == 0 {
      assert tlvs[..1][1..] == [];
    } else {
      EncodedSnoc(tlvs[1..], i - 1);
      assert tlvs[..i + 1][1..] == tlvs[1..][..i] && tlvs[..i][1..] == tlvs[1..][..i - 1];
    }
  }

  lemma {:induction false} EncodedGrows(tlvs: seq<Tlv>, i: nat)
    requires i <= |tlvs|
    ensures |Encoded(tlvs[..i])| <= |Encoded(tlvs)|
    decreases |tlvs| - i
  {
    if i == |tlvs| {
      assert tlvs[..i] == tlvs;
    } else {
      EncodedSnoc(tlvs, i);
      EncodedGrows(tlvs, i + 1);
    }
  }

  function Concat(parts: seq<seq<Byte>>): seq<Byte> {
    if parts == [] then [] else Concat(parts[..|parts| - 1]) + parts[|parts| - 1]
  }

  lemma {:induction false} ConcatGrows(parts: seq<seq<Byte>>, n: nat)
    requires n <= |parts|
    ensures |Concat(parts[..n])| <= |Concat(parts)|
    decreases |parts| - n
  {
    if n == |parts| {
      assert parts[..n] == parts;
    } else {
      assert parts[..n + 1][..n] == parts[..n];
      ConcatGrows(parts, n + 1);
    }
  }

  lemma ConcatSnoc(parts: seq<seq<Byte>>, part: seq<Byte>)
    ensures Concat(parts + [part]) == Concat(parts) + part
  {
    assert (parts + [part])[..|parts|] == parts;
  }

  lemma Concat1(part: seq<Byte>)
    ensures Concat([part]) == part
  {
    ConcatSnoc([], part);
    assert [] + [part] == [part];
  }

  // ------------------------------------------------------------------------------------------
  // CDCP: twelve-bit pairs
  // ------------------------------------------------------------------------------------------

  function CdcpHead(role: bool, sComp: bool, chnCap: Word16): (s: seq<Byte>)
    ensures |s| == 8
  {
    OID_802_1 + [CDCP, (if role then 0x80 else 0) + (if sComp then 8 else 0), 0, chnCap / 0x100 % 0x10, chnCap % 0x100]
  }

  /** What a receiver reads in front of the pairs: the organization's identifier, the subtype, the role bit, the
      S-component bit and twelve bits of channel capacity. */
  lemma CdcpHeadRead(role: bool, sComp: bool, chnCap: Word16)
    ensures var s := CdcpHead(role, sComp, chnCap);
            && s[..4] == [0x00, 0x80, 0xc2, 14]
            && s[4] / 0x80 == (if role then 1 else 0) && s[4] % 0x80 / 8 == (if sComp then 1 else 0) && s[4] % 8 == 0
            && s[5] == 0 && 256 * s[6] as int + s[7] as int == chnCap as int % 0x1000
  {
    Twelve(chnCap as int);
  }

  lemma Twelve(n: nat)
    ensures 256 * (n / 0x100 % 0x10) + n % 0x100 == n % 0x1000
  {
  }

  function Triple(scid: Word16, svid: Word16): (s: seq<Byte>)
    ensures |s| == 3
  {
    [scid / 0x10 % 0x100, scid % 0x10 * 0x10 + svid / 0x100 % 0x10, svid % 0x100]
  }

  function Packed(pairs: seq<(Word16, Word16)>): seq<Byte> {
    if pairs == [] then [] else Packed(pairs[..|pairs| - 1]) + Triple(pairs[|pairs| - 1].0, pairs[|pairs| - 1].1)
  }

  function Unpacked(s: seq<Byte>): seq<(Word16, Word16)> {
    if |s| < 3 then []
    else
      var n := |s| - 3;
      Unpacked(s[..n]) + [(s[n] as int * 0x10 + s[n + 1] as int / 0x10, s[n + 1] as int % 0x10 * 0x100 + s[n + 2] as int)]
  }

  lemma {:induction false} PackedLength(pairs: seq<(Word16, Word16)>)
    ensures |Packed(pairs)| == 3 * |pairs|
  {
    if pairs != [] {
      PackedLength(pairs[..|pairs| - 1]);
    }
  }

  predicate TwelveBits(p: (Word16, Word16)) {
    p.0 < 0x1000 && p.1 < 0x1000
  }

  lemma TwelveLowBits(v: nat)
    ensures v / 0x10 % 0x100 * 0x10 + v % 0x10 == v % 0x1000
    ensures v / 0x100 % 0x10 * 0x100 + v % 0x100 == v % 0x1000
  {
    var q := v / 0x10;
    var r := q / 0x10;
    HexDigits(v, r / 0x10, r % 0x10, q % 0x10, v % 0x10);
  }

  lemma Divide16(n: nat, q: nat, r: nat)
    requires n == 0x10 * q + r && r < 0x10
    ensures n / 0x10 == q && n % 0x10 == r
  {
  }

  lemma Divide256(n: nat, q: nat, r: nat)
    requires n == 0x100 * q + r && r < 0x100
    ensures n / 0x100 == q && n % 0x100 == r
  {
  }

  lemma Divide4096(n: nat, q: nat, r: nat)
    requires n == 0x1000 * q + r && r < 0x1000
    ensures n % 0x1000 == r
  {
  }

  lemma HexDigits(v: nat, a: nat, b: nat, c: nat, d: nat)
    requires b < 0x10 && c < 0x10 && d < 0x10 && v == 0x1000 * a + 0x100 * b + 0x10 * c + d
    ensures v / 0x10 % 0x100 == 0x10 * b + c && v / 0x100 % 0x10 == b
    ensures v % 0x100 == 0x10 * c + d && v % 0x1000 == 0x100 * b + 0x10 * c + d && v % 0x10 == d
  {
    Divide16(v, 0x100 * a + 0x10 * b + c, d);
    Divide256(0x100 * a + 0x10 * b + c, a, 0x10 * b + c);
    Divide256(v, 0x10 * a + b, 0x10 * c + d);
    Divide16(0x10 * a + b, a, b);
    Divide4096(v, a, 0x100 * b + 0x10 * c + d);
  }

  lemma Nibbles(h: nat, l: nat)
    requires h < 0x10 && l < 0x10
    ensures (h * 0x10 + l) / 0x10 == h && (h * 0x10 + l) % 0x10 == l
  {
  }

  lemma TripleFields(scid: Word16, svid: Word16)
    ensures var t := Triple(scid, svid);
            && t[0] as int * 0x10 + t[1] as int / 0x10 == scid % 0x1000
            && t[1] as int % 0x10 * 0x100 + t[2] as int == svid % 0x1000
  {
    TwelveLowBits(scid);
    TwelveLowBits(svid);
    Nibbles(scid % 0x10, svid / 0x100 % 0x10);
  }

  lemma UnpackedSnoc(s: seq<Byte>, p: (Word16, Word16))
    ensures Unpacked(s + Triple(p.0, p.1)) == Unpacked(s) + [(p.0 % 0x1000, p.1 % 0x1000)]
  {
    hide Triple;
    TripleFields(p.0, p.1);
    var t := Triple(p.0, p.1);
    var r := s + t;
    assert r[..|r| - 3] == s && r[|s|] == t[0] && r[|s| + 1] == t[1] && r[|s| + 2] == t[2];
  }

  lemma TwelveBitsExactlyWhen(p: (Word16, Word16))
    ensures (p.0 % 0x1000, p.1 % 0x1000) == p <==> TwelveBits(p)
  {
  }

  /** The pairs are read back exactly when all identifiers have at most twelve bits, as the parser ensures. */
  lemma {:induction false} UnpackedExactlyWhen(pairs: seq<(Word16, Word16)>)
    ensures Unpacked(Packed(pairs)) == pairs <==> forall p | p in pairs :: TwelveBits(p)
  {
    hide Triple, Unpacked, TwelveBits;
    if pairs != [] {
      var n := |pairs| - 1;
      var before, p := pairs[..n], pairs[n];
      assert pairs == before + [p];
      UnpackedExactlyWhen(before);
      UnpackedSnoc(Packed(before), p);
      TwelveBitsExactlyWhen(p);
      LengthOfUnpacked(Packed(before));
      PackedLength(before);
      AppendInjective(Unpacked(Packed(before)), (p.0 % 0x1000, p.1 % 0x1000), before, p);
      assert (forall q | q in pairs :: TwelveBits(q)) <==> (forall q | q in before :: TwelveBits(q)) && TwelveBits(p);
    } else {
      LengthOfUnpacked([]);
    }
  }

  lemma {:induction false} LengthOfUnpacked(s: seq<Byte>)
    ensures |Unpacked(s)| == |s| / 3
  {
    if |s| >= 3 {
      LengthOfUnpacked(s[..|s| - 3]);
    }
  }

  lemma AppendInjective<T>(a: seq<T>, x: T, b: seq<T>, y: T)
    requires |a| == |b|
    ensures a + [x] == b + [y] <==> a == b && x == y
  {
    if a + [x] == b + [y] {
      assert a == (a + [x])[..|a|] == (b + [y])[..|b|];
      assert x == (a + [x])[|a|];
    }
  }

  /** More than 167 pairs, which the parser accepts, do not fit the length field of one TLV. */
  lemma CdcpEncodableExactlyWhen(role: bool, sComp: bool, chnCap: Word16, pairs: seq<(Word16, Word16)>)
    ensures Tlv(OUI, CdcpHead(role, sComp, chnCap) + Packed(pairs)).Encodable() <==> |pairs| <= 167
  {
    PackedLength(pairs);
  }

  // ------------------------------------------------------------------------------------------
  // All builders
  // ------------------------------------------------------------------------------------------

  /** The builders, with the lengths that vary. */
  datatype Builder =
    | ChassisId(len: Byte)
    | PortId(len: Byte)
    | Ttl
    | PortDescription(len: Byte)
    | SystemName(len: Byte)
    | SystemDescription(len: Byte)
    | SystemCapabilities
    | ManagementAddress(addr: Byte, oid: Byte)
    | PortVid
    | ProtocolVid
    | VlanName(len: Byte)
    | ProtocolIdentity(len: Byte)
    | VidUsageDigest
    | ManagementVid
    | LinkAggregation
    | CongestionNotification
    | EtsConfig
    | EtsRecommendation
    | PfcConfig
    | ApplicationPriority(n: nat)
    | Evb
    | Cdcp(n: nat)
    | ApplicationVlan(n: nat)
    | MacPhyStatus
    | BasicPower
    | ExtendedPower
    | MaxFrameSize
    | Eee
    | EeeFastWake
    | PnDelay
    | PnPortStatus
    | PnAlias(len: Byte)
    | PnMrpPortStatus
    | PnChassisMac
    | PnPtcpStatus
    | PnMauTypeExtension
    | PnMrpInterconnect
    | PnNmeDomainUuid
    | PnNmeManagementAddr(len: Byte)
    | PnNmeNameUuid
    | PnNmeParameterUuid
    | RawTlv(n: nat)
    | OuiTlv(n: nat)
    | EndTlv

  /** The size of the fixed array a builder allocates. */
  function Allocated(b: Builder): nat {
    match b
    case ChassisId(len) => len + 1
    case PortId(len) => len + 1
    case Ttl => 2
    case PortDescription(len) => len
    case SystemName(len) => len
    case SystemDescription(len) => len
    case SystemCapabilities => 2 * 2
    case ManagementAddress(addr, oid) => 1 + 1 + addr + 1 + 4 + 1 + oid
    case PortVid => 2 + 3 + 1
    case ProtocolVid => 3 + 1 + 1 + 2
    case VlanName(len) => 3 + 1 + 2 + 1 + len
    case ProtocolIdentity(len) => 3 + 1 + 1 + len
    case VidUsageDigest => 3 + 1 + 4
    case ManagementVid => 2 + 3 + 1
    case LinkAggregation => 1 + 4 + 3 + 1
    case CongestionNotification => 1 + 1 + 3 + 1
    case EtsConfig => 3 + 1 + 1 + 4 + 8 + 8
    case EtsRecommendation => 3 + 1 + 1 + 4 + 8 + 8
    case PfcConfig => 3 + 1 + 1 + 1
    case ApplicationPriority(n) => 3 + 1 + 1 + n * 3
    case Evb => 3 + 1 + 5
    case Cdcp(n) => 3 + 1 + 4 + n * 3
    case ApplicationVlan(n) => 3 + 1 + n * 4
    case MacPhyStatus => 3 + 1 + 1 + 2 + 2
    case BasicPower => 3 + 1 + 3
    case ExtendedPower => 3 + 1 + 3 + 5
    case MaxFrameSize => 3 + 1 + 2
    case Eee => 3 + 1 + 2 + 2 + 2 + 2 + 2
    case EeeFastWake => 3 + 1 + 4
    case PnDelay => 3 + 1 + 4 + 4 + 4 + 4 + 4
    case PnPortStatus => 3 + 1 + 2 + 2
    case PnAlias(len) => 3 + 1 + len
    case PnMrpPortStatus => 3 + 1 + 16 + 2
    case PnChassisMac => 3 + 1 + 6
    case PnPtcpStatus => 3 + 1 + 6 + 2 * 16 + 4 * 4
    case PnMauTypeExtension => 3 + 1 + 2
    case PnMrpInterconnect => 3 + 1 + 2 + 2 + 2
    case PnNmeDomainUuid => 3 + 1 + 16
    case PnNmeManagementAddr(len) => 3 + 1 + len
    case PnNmeNameUuid => 3 + 1 + 16
    case PnNmeParameterUuid => 3 + 1 + 16
    case RawTlv(n) => n
    case OuiTlv(n) => n + 3 + 1
    case EndTlv => 1
  }

  /** The lengths of the parts it then appends, in order. */
  function PartLengths(b: Builder): seq<nat> {
    match b
    case ChassisId(len) => [1, len]
    case PortId(len) => [1, len]
    case Ttl => [2]
    case PortDescription(len) => [len]
    case SystemName(len) => [len]
    case SystemDescription(len) => [len]
    case SystemCapabilities => [2, 2]
    case ManagementAddress(addr, oid) => [1, 1, addr, 1, 4, 1, oid]
    case PortVid => [3, 1, 2]
    case ProtocolVid => [3, 1, 1, 2]
    case VlanName(len) => [3, 1, 2, 1, len]
    case ProtocolIdentity(len) => [3, 1, 1, len]
    case VidUsageDigest => [3, 1, 4]
    case ManagementVid => [3, 1, 2]
    case LinkAggregation => [3, 1, 1, 4]
    case CongestionNotification => [3, 1, 1, 1]
    case EtsConfig => [3, 1, 1, 4, 8, 8]
    case EtsRecommendation => [3, 1, 1, 4, 8, 8]
    case PfcConfig => [3, 1, 1, 1]
    case ApplicationPriority(n) => [3, 1, 1] + Repeated([1, 2], n)
    case Evb => [3, 1, 1, 1, 1, 1, 1]
    case Cdcp(n) => [3, 1, 1, 1, 1, 1] + Repeated([1, 1, 1], n)
    case ApplicationVlan(n) => [3, 1] + Repeated([4], n)
    case MacPhyStatus => [3, 1, 1, 2, 2]
    case BasicPower => [3, 1, 1, 1, 1]
    case ExtendedPower => [3, 1, 1, 1, 1, 1, 2, 2]
    case MaxFrameSize => [3, 1, 2]
    case Eee => [3, 1, 2, 2, 2, 2, 2]
    case EeeFastWake => [3, 1, 1, 1, 1, 1]
    case PnDelay => [3, 1, 4, 4, 4, 4, 4]
    case PnPortStatus => [3, 1, 2, 2]
    case PnAlias(len) => [3, 1, len]
    case PnMrpPortStatus => [3, 1, 16, 2]
    case PnChassisMac => [3, 1, 6]
    case PnPtcpStatus => [3, 1, 6, 16, 16, 4, 4, 4, 4]
    case PnMauTypeExtension => [3, 1, 2]
    case PnMrpInterconnect => [3, 1, 2, 2, 2]
    case PnNmeDomainUuid => [3, 1, 16]
    case PnNmeManagementAddr(len) => [1, 1, len]
    case PnNmeNameUuid => [3, 1, 16]
    case PnNmeParameterUuid => [3, 1, 16]
    case RawTlv(n) => [n]
    case OuiTlv(n) => [3, 1, n]
    case EndTlv => [1]
  }

  function Repeated(unit: seq<nat>, n: nat): seq<nat> {
    if n == 0 then [] else unit + Repeated(unit, n - 1)
  }

  function Lengths(parts: seq<seq<Byte>>): (s: seq<nat>)
    ensures |s| == |parts| && forall i | 0 <= i < |parts| :: s[i] == |parts[i]|
  {
    seq(|parts|, i requires 0 <= i < |parts| => |parts[i]|)
  }

  function Total(s: seq<nat>): nat {
    if s == [] then 0 else s[0] + Total(s[1..])
  }

  lemma {:induction false} TotalConcat(s: seq<nat>, t: seq<nat>)
    ensures Total(s + t) == Total(s) + Total(t)
  {
    if s == [] {
      assert s + t == t;
    } else {
      assert (s + t)[1..] == s[1..] + t;
      TotalConcat(s[1..], t);
    }
  }

  lemma {:induction false} TotalRepeated(unit: seq<nat>, n: nat)
    ensures Total(Repeated(unit, n)) == n * Total(unit)
  {
    if n > 0 {
      TotalRepeated(unit, n - 1);
      TotalConcat(unit, Repeated(unit, n - 1));
    }
  }

  /** Up to three summands, and lists put together from such. */
  lemma TotalOf(s: seq<nat>)
    ensures |s| == 1 ==> Total(s) == s[0]
    ensures |s| == 2 ==> Total(s) == s[0] + s[1]
    ensures |s| == 3 ==> Total(s) == s[0] + s[1] + s[2]
    ensures 3 < |s| ==> Total(s) == s[0] + s[1] + s[2] + Total(s[3..])
  {
    if |s| > 1 {
      assert s[1..][1..] == s[2..];
      if |s| > 2 {
        assert s[2..][1..] == s[3..];
      }
    }
  }

  /** What is in an array is as long as its parts together. */
  lemma {:induction false} ConcatLength(parts: seq<seq<Byte>>)
    ensures |Concat(parts)| == Total(Lengths(parts))
  {
    if parts != [] {
      var before, last := parts[..|parts| - 1], parts[|parts| - 1];
      ConcatLength(before);
      assert Lengths(parts) == Lengths(before) + [|last|];
      TotalConcat(Lengths(before), [|last|]);
      TotalOf([|last|]);
    }
  }

  lemma RepeatedParts(b: Builder)
    requires Repeats(b)
    ensures Total(PartLengths(b)) == Allocated(b)
  {
    hide Total, Repeated;
    match b
    case ApplicationPriority(n) =>
      TotalConcat([3, 1, 1], Repeated([1, 2], n));
      TotalRepeated([1, 2], n);
      TotalOf([3, 1, 1]);
      TotalOf([1, 2]);
    case Cdcp(n) =>
      TotalConcat([3, 1, 1, 1, 1, 1], Repeated([1, 1, 1], n));
      TotalRepeated([1, 1, 1], n);
      TotalOf([3, 1, 1, 1, 1, 1]);
      assert [3, 1, 1, 1, 1, 1][3..] == [1, 1, 1];
      TotalOf([1, 1, 1]);
    case ApplicationVlan(n) =>
      TotalConcat([3, 1], Repeated([4], n));
      TotalRepeated([4], n);
      TotalOf([3, 1]);
      TotalOf([4]);
  }

  predicate Repeats(b: Builder) {
    b.ApplicationPriority? || b.Cdcp? || b.ApplicationVlan?
  }

  function Unset(b: Builder): nat {
    if b.PnNmeManagementAddr? then 2 else 0
  }

  lemma FewParts(b: Builder)
    requires !Repeats(b) && 0 < |PartLengths(b)| <= 3
    ensures Total(PartLengths(b)) + Unset(b) == Allocated(b)
  {
    hide Total;
    TotalOf(PartLengths(b));
  }

  lemma SomeParts(b: Builder)
    requires !Repeats(b) && 3 < |PartLengths(b)| <= 6
    ensures Total(PartLengths(b)) + Unset(b) == Allocated(b)
  {
    hide Total;
    TotalOf(PartLengths(b));
    TotalOf(PartLengths(b)[3..]);
  }

  lemma ManyParts(b: Builder)
    requires !Repeats(b) && 6 < |PartLengths(b)| <= 9
    ensures Total(PartLengths(b)) + Unset(b) == Allocated(b)
  {
    hide Total;
    var s := PartLengths(b);
    assert s[3..][3..] == s[6..];
    TotalOf(s);
    TotalOf(s[3..]);
    TotalOf(s[6..]);
  }

  lemma PartCount(b: Builder)
    ensures !Repeats(b) ==> 0 < |PartLengths(b)| <= 9
  {
  }

  lemma PartsTotal(b: Builder)
    ensures Total(PartLengths(b)) + Unset(b) == Allocated(b)
  {
    hide Total, PartLengths, Allocated;
    PartCount(b);
    if Repeats(b) {
      RepeatedParts(b);
    } else if |PartLengths(b)| <= 3 {
      FewParts(b);
    } else if |PartLengths(b)| <= 6 {
      SomeParts(b);
    } else {
      ManyParts(b);
    }
  }

  /** Parts of the lengths a builder appends fill the array it allocates, for all lengths and contents, except
      with the one builder that nothing calls; that one leaves two octets unset. */
  lemma FillsExactlyWhen(b: Builder, parts: seq<seq<Byte>>)
    requires Lengths(parts) == PartLengths(b)
    ensures |Concat(parts)| <= Allocated(b)
    ensures |Concat(parts)| == Allocated(b) <==> !b.PnNmeManagementAddr?
  {
    hide PartLengths, Allocated, Total, Concat;
    ConcatLength(parts);
    PartsTotal(b);
  }
}
