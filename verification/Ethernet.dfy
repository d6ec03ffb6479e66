/** The Ethernet frame builder: a byte buffer edited in place through two moving cursors, against an
    abstract frame and its encoding. */
module Ethernet {
  import opened Bytes

  const MAC_HEADER_SIZE := 14
  const VLAN_TAG_SIZE := 4
  const SNAP_SIZE := 5
  const ETHERTYPE_CVLAN: Word16 := 0x8100
  const ETHERTYPE_SVLAN: Word16 := 0x88a8

  // ------------------------------------------------------------------------------------------
  // Abstract frames
  // ------------------------------------------------------------------------------------------

  datatype Tag = Tag(isCTag: bool, vid: Word16, prio: Word16, dei: Word16) {
    /** Priority in the three highest bits, drop eligibility in the next, then twelve bits of VLAN id. */
    function Tci(): Word16 {
      vid % 0x1000 + dei % 2 * 0x1000 + prio % 8 * 0x2000
    }

    function Octets(): (s: seq<Byte>)
      ensures |s| == VLAN_TAG_SIZE
    {
      Be16(if isCTag then ETHERTYPE_CVLAN else ETHERTYPE_SVLAN) + Be16(Tci())
    }
  }

  /** A receiver of a tag reads the protocol identifier of its kind and, from the high-order bit down, three bits of
      priority, one of drop eligibility and twelve of VLAN identifier (clause 9.6 of IEEE 802.1Q). */
  lemma TagRead(t: Tag)
    ensures var o := t.Octets();
            var tci := 256 * o[2] as int + o[3] as int;
            && o[..2] == (if t.isCTag then [0x81, 0x00] else [0x88, 0xa8])
            && tci / 0x2000 == t.prio % 8 && tci / 0x1000 % 2 == t.dei % 2 && tci % 0x1000 == t.vid % 0x1000
  {
    TciFields(t.vid % 0x1000, t.dei % 2, t.prio % 8);
    OctetsOf16(t.Tci());
    assert Be16(0x8100) == [0x81, 0x00] && Be16(0x88a8) == [0x88, 0xa8];
  }

  lemma TciFields(vid: nat, dei: nat, prio: nat)
    requires vid < 0x1000 && dei < 2 && prio < 8
    ensures var tci := vid + dei * 0x1000 + prio * 0x2000;
            tci / 0x2000 == prio && tci / 0x1000 % 2 == dei && tci % 0x1000 == vid
  {
    assert (vid + dei * 0x1000 + prio * 0x2000) / 0x1000 == 2 * prio + dei;
  }

  /** The program's own reader of a tag keeps only ten bits of the VLAN identifier. */
  lemma IdReadExactlyWhen(t: Tag)
    ensures t.Tci() % 0x400 == t.vid % 0x1000 <==> t.vid % 0x1000 < 0x400
  {
    TciFields(t.vid % 0x1000, t.dei % 2, t.prio % 8);
  }

  function TagOctets(tags: seq<Tag>): (s: seq<Byte>)
    ensures |s| == 4 * |tags|
  {
    if tags == [] then [] else TagOctets(tags[..|tags| - 1]) + tags[|tags| - 1].Octets()
  }

  datatype Frame = Frame(
    dst: seq<Byte>, src: seq<Byte>, tags: seq<Tag>, typeLength: Word16, llc: seq<Byte>, payload: seq<Byte>)
  {
    predicate WellFormed() {
      |dst| == 6 && |src| == 6
    }

    /** Everything in front of the type/length field. */
    function Head(): seq<Byte> {
      dst + src + TagOctets(tags)
    }

    function Encode(): seq<Byte> {
      Head() + Be16(typeLength) + llc + payload
    }

    function TypeAt(): nat {
      12 + 4 * |tags|
    }

    function PayloadAt(): nat {
      14 + 4 * |tags| + |llc|
    }

    function Length(): nat {
      PayloadAt() + |payload|
    }
  }

  const NO_MAC: seq<Byte> := [0, 0, 0, 0, 0, 0]

  const EMPTY_FRAME := Frame(NO_MAC, NO_MAC, [], 0, [], [])

  lemma EncodeLength(f: Frame)
    requires f.WellFormed()
    ensures |f.Head()| == f.TypeAt()
    ensures |f.Encode()| == f.Length()
  {
  }

  lemma EncodeParts(f: Frame)
    requires f.WellFormed()
    ensures |f.Encode()| == f.Length()
    ensures f.Encode()[..f.TypeAt()] == f.Head()
    ensures f.Encode()[f.TypeAt()..f.TypeAt() + 2] == Be16(f.typeLength)
    ensures f.Encode()[f.TypeAt() + 2..f.PayloadAt()] == f.llc
    ensures f.Encode()[f.PayloadAt()..] == f.payload
    ensures f.Encode()[f.TypeAt() + 2..] == f.llc + f.payload
  {
  }

  /** Where a receiver finds the parts: destination, source, the tags in order, the type and what follows. */
  lemma FrameRead(f: Frame)
    requires f.WellFormed()
    ensures var e, n := f.Encode(), |f.tags|;
            && e[..6] == f.dst && e[6..12] == f.src
            && (forall k | 0 <= k < n :: e[12 + 4 * k..16 + 4 * k] == f.tags[k].Octets())
            && 256 * e[12 + 4 * n] as int + e[13 + 4 * n] as int == f.typeLength as int
            && e[14 + 4 * n..] == f.llc + f.payload
  {
    hide Tag.Octets, Be16;
    EncodeParts(f);
    forall k | 0 <= k < |f.tags|
      ensures f.Encode()[12 + 4 * k..16 + 4 * k] == f.tags[k].Octets()
    {
      TagInOrder(f.tags, k);
      assert f.Encode()[12 + 4 * k..16 + 4 * k] == TagOctets(f.tags)[4 * k..4 * k + 4];
    }
    OctetsOf16(f.typeLength);
  }

  lemma {:induction false} TagInOrder(tags: seq<Tag>, k: nat)
    requires k < |tags|
    ensures TagOctets(tags)[4 * k..4 * k + 4] == tags[k].Octets()
  {
    hide Tag.Octets;
    var n := |tags| - 1;
    if k < n {
      TagInOrder(tags[..n], k);
      assert TagOctets(tags)[4 * k..4 * k + 4] == TagOctets(tags[..n])[4 * k..4 * k + 4];
    }
  }

  function LlcOctets(dsap: Byte, ssap: Byte, control: Word16): (s: seq<Byte>)
    ensures |s| == if control % 4 == 3 then 3 else 4
  {
    [dsap, ssap] + if control % 4 == 3 then [control % 256] else Be16(control)
  }

  /** The SNAP header as IEEE 802 defines it: the identifier most significant octet first. */
  function SnapOctets(oui: Word32, protocol: Word16): (s: seq<Byte>)
    ensures |s| == SNAP_SIZE
  {
    [oui / 0x10000 % 0x100, oui / 0x100 % 0x100, oui % 0x100] + Be16(protocol)
  }

  /** DSAP, SSAP, then a control field of one octet for unnumbered frames and of two for all others (clause 3.2 of
      IEEE 802.2). */
  lemma LlcRead(dsap: Byte, ssap: Byte, control: Word16)
    ensures var o := LlcOctets(dsap, ssap, control);
            && o[0] == dsap && o[1] == ssap
            && (if control % 4 == 3 then |o| == 3 && o[2] == control % 256
                else |o| == 4 && 256 * o[2] as int + o[3] as int == control)
  {
    OctetsOf16(control);
  }

  lemma SnapRead(oui: Word32, protocol: Word16)
    ensures var o := SnapOctets(oui, protocol);
            && 0x10000 * o[0] as int + 0x100 * o[1] as int + o[2] as int == oui % 0x100_0000
            && 256 * o[3] as int + o[4] as int == protocol
  {
    var t: Byte, a: Byte, b: Byte, c: Byte := oui / 0x1000000, oui / 0x10000 % 0x100, oui / 0x100 % 0x100, oui % 0x100;
    OctetsOf16(protocol);
    assert oui == 0x1000000 * t as int + (0x10000 * a as int + 0x100 * b as int + c as int);
  }

  /** The C library's htonl as a number on the host. */
  function Htonl(bigEndian: bool, v: Word32): Word32 {
    if bigEndian then v
    else v % 0x100 * 0x1000000 + v / 0x100 % 0x100 * 0x10000 + v / 0x10000 % 0x100 * 0x100 + v / 0x1000000
  }

  /** The SNAP header as it is written: shifts of the converted identifier. */
  function SnapWritten(bigEndian: bool, oui: Word32, protocol: Word16): (s: seq<Byte>)
    ensures |s| == SNAP_SIZE
  {
    var n := Htonl(bigEndian, oui);
    [n / 0x100 % 0x100, n / 0x10000 % 0x100, n / 0x1000000] + Be16(protocol)
  }

  lemma Digits32(v: nat, t: Byte, a: Byte, b: Byte, c: Byte)
    requires v == t as int * 0x1000000 + a as int * 0x10000 + b as int * 0x100 + c as int
    ensures v / 0x1000000 == t && v / 0x10000 % 0x100 == a && v / 0x100 % 0x100 == b && v % 0x100 == c
  {
    assert v / 0x10000 == t as int * 0x100 + a as int;
    assert v / 0x100 == (t as int * 0x100 + a as int) * 0x100 + b as int;
  }

  /** The header is written as defined on little-endian hosts; on big-endian ones only when the two upper octets
      of the identifier agree and the lowest is what stands above them (zero for every 24-bit identifier). */
  lemma SnapRightExactlyWhen(bigEndian: bool, oui: Word32, protocol: Word16)
    ensures SnapWritten(bigEndian, oui, protocol) == SnapOctets(oui, protocol)
        <==> !bigEndian || (oui / 0x10000 % 0x100 == oui / 0x100 % 0x100 && oui % 0x100 == oui / 0x1000000)
  {
    hide Be16;
    var t: Byte, a: Byte := oui / 0x1000000, oui / 0x10000 % 0x100;
    var b: Byte, c: Byte := oui / 0x100 % 0x100, oui % 0x100;
    if !bigEndian {
      Digits32(Htonl(false, oui), c, b, a, t);
    } else {
      var w, d := SnapWritten(true, oui, protocol), SnapOctets(oui, protocol);
      assert w[0] == b && w[1] == a && w[2] == t && d[0] == a && d[1] == b && d[2] == c;
      assert w[3..] == Be16(protocol) == d[3..];
      if a == b && c == t {
        assert w == d;
      }
    }
  }

  /** The length field counts what follows it, truncated to 16 bits. */
  function LengthField(f: Frame): Word16 {
    (|f.llc| + |f.payload|) % U16
  }

  // ------------------------------------------------------------------------------------------
  // Editing a buffer that starts with an encoded frame
  // ------------------------------------------------------------------------------------------

  function Spliced(b: seq<Byte>, at: nat, data: seq<Byte>): (r: seq<Byte>)
    requires at + |data| <= |b|
    ensures |r| == |b|
  {
    b[..at] + data + b[at + |data|..]
  }

  method Memcpy(a: array<Byte>, at: nat, data: seq<Byte>)
    requires at + |data| <= a.Length
    modifies a
    ensures a[..] == Spliced(old(a[..]), at, data)
  {
    forall i | 0 <= i < |data| {
      a[at + i] := data[i];
    }
  }

  /** Source and destination may overlap. */
  method Memmove(a: array<Byte>, dst: nat, src: nat, n: nat)
    requires dst + n <= a.Length && src + n <= a.Length
    modifies a
    ensures a[..] == Spliced(old(a[..]), dst, old(a[src..src + n]))
  {
    forall i | 0 <= i < n {
      a[dst + i] := a[src + i];
    }
  }

  ghost predicate Holds(b: seq<Byte>, f: Frame) {
    f.WellFormed() && f.Length() <= |b| && b[..f.Length()] == f.Encode()
  }

  /** What stands behind the two addresses. */
  function Tail(f: Frame): seq<Byte> {
    TagOctets(f.tags) + Be16(f.typeLength) + f.llc + f.payload
  }

  lemma MacParts(b: seq<Byte>, f: Frame)
    requires f.WellFormed() && f.Length() <= |b|
    ensures Holds(b, f) <==> b[..6] == f.dst && b[6..12] == f.src && b[12..f.Length()] == Tail(f)
  {
    hide TagOctets, Be16;
    assert f.Encode() == f.dst + f.src + Tail(f);
    assert b[..f.Length()] == b[..6] + b[6..12] + b[12..f.Length()];
  }

  lemma SpliceMac(b: seq<Byte>, f: Frame, mac: seq<Byte>)
    requires Holds(b, f) && |mac| == 6
    ensures Holds(Spliced(b, 0, mac), f.(dst := mac))
    ensures Holds(Spliced(b, 6, mac), f.(src := mac))
  {
    hide Holds, TagOctets, Be16;
    assert f.WellFormed() && f.Length() <= |b| by { HoldsFits(b, f); }
    MacParts(b, f);
    MacParts(Spliced(b, 0, mac), f.(dst := mac));
    MacParts(Spliced(b, 6, mac), f.(src := mac));
  }

  lemma HoldsFits(b: seq<Byte>, f: Frame)
    requires Holds(b, f)
    ensures f.WellFormed() && f.Length() <= |b|
  {
  }

  lemma Parts(b: seq<Byte>, f: Frame)
    requires f.WellFormed() && f.Length() <= |b|
    ensures Holds(b, f) <==>
              && b[..f.TypeAt()] == f.Head()
              && b[f.TypeAt()..f.TypeAt() + 2] == Be16(f.typeLength)
              && b[f.TypeAt() + 2..f.PayloadAt()] == f.llc
              && b[f.PayloadAt()..f.Length()] == f.payload
  {
    hide TagOctets, Be16;
    EncodeLength(f);
    var n, t, p := f.Length(), f.TypeAt(), f.PayloadAt();
    assert b[..n] == b[..t] + b[t..t + 2] + b[t + 2..p] + b[p..n];
    if b[..n] == f.Encode() {
      EncodeParts(f);
      assert b[..t] == b[..n][..t] && b[t..t + 2] == b[..n][t..t + 2];
      assert b[t + 2..p] == b[..n][t + 2..p] && b[p..n] == b[..n][p..];
    }
  }

  lemma SpliceType(b: seq<Byte>, f: Frame, v: Word16)
    requires Holds(b, f)
    ensures Holds(Spliced(b, f.TypeAt(), Be16(v)), f.(typeLength := v))
  {
    hide Holds, TagOctets, Be16;
    HoldsFits(b, f);
    Parts(b, f);
    Parts(Spliced(b, f.TypeAt(), Be16(v)), f.(typeLength := v));
  }

  /** Moving n octets up and writing data into the gap. */
  function Shifted(b: seq<Byte>, at: nat, n: nat, data: seq<Byte>): (r: seq<Byte>)
    requires at + |data| + n <= |b|
    ensures |r| == |b|
  {
    Spliced(Spliced(b, at + |data|, b[at..at + n]), at, data)
  }

  lemma ShiftedParts(b: seq<Byte>, at: nat, n: nat, data: seq<Byte>)
    requires at + |data| + n <= |b|
    ensures var r := Shifted(b, at, n, data);
            && r[..at] == b[..at] && r[at..at + |data|] == data
            && r[at + |data|..at + |data| + n] == b[at..at + n]
  {
    var moved := Spliced(b, at + |data|, b[at..at + n]);
    assert moved[..at] == b[..at];
    assert moved[at + |data|..at + |data| + n] == b[at..at + n];
  }

  /** Slices of equal slices. */
  lemma SubSlice(r: seq<Byte>, from: nat, b: seq<Byte>, at: nat, n: nat, i: nat, k: nat)
    requires from + n <= |r| && at + n <= |b| && r[from..from + n] == b[at..at + n]
    requires i <= k <= n
    ensures r[from + i..from + k] == b[at + i..at + k]
  {
    var u := r[from..from + n];
    var x, y := r[from + i..from + k], b[at + i..at + k];
    forall j | 0 <= j < k - i
      ensures x[j] == y[j]
    {
      assert u[i + j] == r[from + i + j] && u[i + j] == b[at + i + j];
    }
  }

  /** Moving the payload up and writing data into the gap extends the LLC header. */
  lemma SpliceLlc(b: seq<Byte>, f: Frame, data: seq<Byte>)
    requires Holds(b, f) && f.Length() + |data| <= |b|
    ensures Holds(Shifted(b, f.PayloadAt(), |f.payload|, data), f.(llc := f.llc + data))
  {
    hide Holds, TagOctets, Be16, Shifted, Frame.Head;
    HoldsFits(b, f);
    Parts(b, f);
    var t, at := f.TypeAt(), f.PayloadAt();
    var r := Shifted(b, at, |f.payload|, data);
    ShiftedParts(b, at, |f.payload|, data);
    SubSlice(r, 0, b, 0, at, 0, t);
    SubSlice(r, 0, b, 0, at, t, t + 2);
    SubSlice(r, 0, b, 0, at, t + 2, at);
    assert r[t + 2..at + |data|] == r[t + 2..at] + r[at..at + |data|];
    SameHead(f, data);
    Parts(r, f.(llc := f.llc + data));
  }

  lemma SameHead(f: Frame, data: seq<Byte>)
    ensures f.(llc := f.llc + data).Head() == f.Head()
  {
  }

  lemma SplicePayload(b: seq<Byte>, f: Frame, data: seq<Byte>)
    requires Holds(b, f) && f.Length() + |data| <= |b|
    ensures Holds(Spliced(b, f.Length(), data), f.(payload := f.payload + data))
  {
    assert Spliced(b, f.Length(), data)[..f.Length() + |data|] == f.Encode() + data;
  }

  lemma DropPayload(b: seq<Byte>, f: Frame)
    requires Holds(b, f)
    ensures Holds(b, f.(payload := []))
  {
    EncodeParts(f);
    assert b[..f.PayloadAt()] == f.Encode()[..f.PayloadAt()];
  }

  lemma SpliceInsidePayload(b: seq<Byte>, f: Frame, offset: nat, data: seq<Byte>)
    requires Holds(b, f) && offset + |data| <= |f.payload|
    ensures Holds(Spliced(b, f.PayloadAt() + offset, data), f.(payload := Spliced(f.payload, offset, data)))
  {
    hide Holds, TagOctets, Be16, Frame.Head;
    HoldsFits(b, f);
    Parts(b, f);
    var t, at := f.TypeAt(), f.PayloadAt();
    var g := f.(payload := Spliced(f.payload, offset, data));
    var r := Spliced(b, at + offset, data);
    assert r[..at] == b[..at];
    SubSlice(r, 0, b, 0, at, 0, t);
    SubSlice(r, 0, b, 0, at, t, t + 2);
    SubSlice(r, 0, b, 0, at, t + 2, at);
    SplicedSlice(b, at, |f.payload|, offset, data);
    OtherPayload(f, g.payload);
    Parts(r, g);
  }

  lemma SplicedSlice(b: seq<Byte>, at: nat, n: nat, offset: nat, data: seq<Byte>)
    requires at + n <= |b| && offset + |data| <= n
    ensures Spliced(b, at + offset, data)[at..at + n] == Spliced(b[at..at + n], offset, data)
  {
  }

  lemma OtherPayload(f: Frame, payload: seq<Byte>)
    ensures f.(payload := payload).Head() == f.Head()
  {
  }

  /** The buffer after addVlanTag: the type field and as many octets as the payload has are moved up by one
      tag, whatever stands between them, and the tag goes where the type field was. */
  function VlanShifted(b: seq<Byte>, typeAt: nat, payloadLength: nat, tag: Tag): seq<Byte>
    requires typeAt + 6 + payloadLength <= |b|
  {
    Shifted(b, typeAt, 2 + payloadLength, tag.Octets())
  }

  lemma TaggedHead(f: Frame, tag: Tag)
    ensures f.(tags := f.tags + [tag]).Head() == f.Head() + tag.Octets()
  {
    var tags := f.tags + [tag];
    assert tags[..|tags| - 1] == f.tags;
  }

  lemma SpliceVlan(b: seq<Byte>, f: Frame, tag: Tag)
    requires Holds(b, f) && f.llc == [] && f.Length() + VLAN_TAG_SIZE <= |b|
    ensures Holds(VlanShifted(b, f.TypeAt(), |f.payload|, tag), f.(tags := f.tags + [tag]))
  {
    hide Holds, TagOctets, Be16, Frame.Head, Tag.Octets, Shifted;
    HoldsFits(b, f);
    Parts(b, f);
    TaggedHead(f, tag);
    var g := f.(tags := f.tags + [tag]);
    var at, n := f.TypeAt(), 2 + |f.payload|;
    var r := VlanShifted(b, at, |f.payload|, tag);
    ShiftedParts(b, at, n, tag.Octets());
    assert r[..at + 4] == r[..at] + r[at..at + 4];
    SubSlice(r, at + 4, b, at, n, 0, 2);
    SubSlice(r, at + 4, b, at, n, 2, n);
    Parts(r, g);
  }

  // ------------------------------------------------------------------------------------------
  // The buffer
  // ------------------------------------------------------------------------------------------

  class EthernetPacket {
    var packet: array<Byte>
    var packetMaxLength: nat
    var pPayload: nat
    var pEthertypeLength: nat
    var payloadLength: nat
    var llcHeaderLength: nat
    var hasDMAC: bool
    ghost var frame: Frame   // what the buffer encodes

    ghost predicate Valid()
      reads this, packet
    {
      && pEthertypeLength == frame.TypeAt()
      && pPayload == frame.PayloadAt()
      && llcHeaderLength == |frame.llc|
      && payloadLength == |frame.payload|
      && frame.Length() <= packetMaxLength <= packet.Length
      && Holds(packet[..], frame)
    }

    function GetLength(): nat
      reads this
    {
      pPayload + payloadLength
    }

    predicate Fits(addedBytes: nat)
      reads this
    {
      GetLength() + addedBytes <= packetMaxLength
    }

    constructor (maxLength: nat)
      requires maxLength >= MAC_HEADER_SIZE
      ensures Valid() && fresh(packet)
      ensures frame == EMPTY_FRAME && !hasDMAC && packetMaxLength == maxLength
    {
      packet := new Byte[(maxLength + 3) / 4 * 4];
      packetMaxLength := maxLength;
      pPayload, pEthertypeLength, payloadLength, llcHeaderLength := 14, 12, 0, 0;
      hasDMAC := false;
      frame := EMPTY_FRAME;
      new;
      forall i | 0 <= i < MAC_HEADER_SIZE {
        packet[i] := 0;
      }
      assert packet[..][..14] == EMPTY_FRAME.Encode();
    }

    constructor Copy(obj: EthernetPacket)
      requires obj.Valid()
      ensures Valid() && fresh(packet)
      ensures frame == obj.frame && hasDMAC == obj.hasDMAC && packetMaxLength == obj.packetMaxLength
    {
      packet := new Byte[(obj.packetMaxLength + 3) / 4 * 4];
      packetMaxLength := obj.packetMaxLength;
      payloadLength, llcHeaderLength, hasDMAC := obj.payloadLength, obj.llcHeaderLength, obj.hasDMAC;
      pPayload, pEthertypeLength := obj.pPayload, obj.pEthertypeLength;
      frame := obj.frame;
      new;
      forall i | 0 <= i < obj.pPayload + obj.payloadLength {
        packet[i] := obj.packet[i];
      }
      assert packet[..][..frame.Length()] == obj.packet[..][..obj.frame.Length()];
    }

    method SetDestMac(mac: seq<Byte>)
      requires Valid() && |mac| == 6
      modifies this, packet
      ensures Valid() && packet == old(packet) && packetMaxLength == old(packetMaxLength)
      ensures frame == old(frame).(dst := mac) && hasDMAC
    {
      SpliceMac(packet[..], frame, mac);
      Memcpy(packet, 0, mac);
      hasDMAC := true;
      frame := frame.(dst := mac);
    }

    method SetSrcMac(mac: seq<Byte>)
      requires Valid() && |mac| == 6
      modifies this`frame, packet
      ensures Valid() && frame == old(frame).(src := mac)
    {
      SpliceMac(packet[..], frame, mac);
      Memcpy(packet, 6, mac);
      frame := frame.(src := mac);
    }

    method SetTypeLength(v: Word16)
      requires Valid()
      modifies this`frame, packet
      ensures Valid() && frame == old(frame).(typeLength := v)
    {
      SpliceType(packet[..], frame, v);
      Memcpy(packet, pEthertypeLength, Be16(v));
      frame := frame.(typeLength := v);
    }

    method SetLength()
      requires Valid()
      modifies this`frame, packet
      ensures Valid() && frame == old(frame).(typeLength := LengthField(old(frame)))
    {
      SetTypeLength((payloadLength + llcHeaderLength) % U16);
    }

    /** Fails, with nothing but llcHeaderLength changed, when the header does not fit. */
    method AddLlcHeader(dsap: Byte, ssap: Byte, control: Word16) returns (ok: bool)
      requires Valid() && frame.llc == []
      modifies this, packet
      ensures packet == old(packet) && packetMaxLength == old(packetMaxLength) && hasDMAC == old(hasDMAC)
      ensures ok <==> old(GetLength()) + |LlcOctets(dsap, ssap, control)| <= packetMaxLength
      ensures ok ==> Valid() && var f := old(frame).(llc := LlcOctets(dsap, ssap, control));
                     frame == f.(typeLength := LengthField(f))
      ensures !ok ==> packet[..] == old(packet[..]) && frame == old(frame) && GetLength() == old(GetLength())
    {
      hide Holds, Spliced, LlcOctets, SnapWritten, LengthField;
      llcHeaderLength := if control % 4 == 3 then 3 else 4;
      ok := Fits(llcHeaderLength);
      if !ok {
        return;
      }
      SpliceLlc(packet[..], frame, LlcOctets(dsap, ssap, control));
      // if there is already payload, it is moved
      Memmove(packet, pPayload + llcHeaderLength, pPayload, payloadLength);
      Memcpy(packet, pPayload, LlcOctets(dsap, ssap, control));
      pPayload := pPayload + llcHeaderLength;
      assert [] + LlcOctets(dsap, ssap, control) == LlcOctets(dsap, ssap, control);
      frame := frame.(llc := frame.llc + LlcOctets(dsap, ssap, control));
      SetLength();
    }

    method AddSnapHeader(bigEndian: bool, oui: Word32, protocol: Word16) returns (ok: bool)
      requires Valid() && frame.llc == []
      modifies this, packet
      ensures packet == old(packet) && packetMaxLength == old(packetMaxLength) && hasDMAC == old(hasDMAC)
      ensures ok <==> old(GetLength()) + 3 + SNAP_SIZE <= packetMaxLength
      ensures ok ==> Valid() && var f := old(frame).(llc := LlcOctets(0xaa, 0xaa, 3) + SnapWritten(bigEndian, oui, protocol));
                     frame == f.(typeLength := LengthField(f))
    {
      hide Holds, Spliced, LlcOctets, SnapWritten;
      ok := AddLlcHeader(0xaa, 0xaa, 3);
      if !ok {
        return;
      }
      ok := Fits(SNAP_SIZE);
      if !ok {
        return;
      }
      SpliceLlc(packet[..], frame, SnapWritten(bigEndian, oui, protocol));
      Memmove(packet, pPayload + SNAP_SIZE, pPayload, payloadLength);
      llcHeaderLength := llcHeaderLength + SNAP_SIZE;
      Memcpy(packet, pPayload, SnapWritten(bigEndian, oui, protocol));
      pPayload := pPayload + SNAP_SIZE;
      frame := frame.(llc := frame.llc + SnapWritten(bigEndian, oui, protocol));
      SetLength();
    }

    method AddVlanTag(isCTag: bool, id: Word16, prio: Word16, dei: Word16) returns (ok: bool)
      requires Valid()
      modifies this, packet
      ensures packet == old(packet) && packetMaxLength == old(packetMaxLength) && hasDMAC == old(hasDMAC)
      ensures ok <==> old(GetLength()) + VLAN_TAG_SIZE <= packetMaxLength
      ensures !ok ==> Valid() && frame == old(frame) && packet[..] == old(packet[..])
      ensures ok ==>
                var tag := Tag(isCTag, id, prio, dei);
                && packet[..] == VlanShifted(old(packet[..]), old(pEthertypeLength), old(payloadLength), tag)
                && (old(frame).llc == [] ==> Valid() && frame == old(frame).(tags := old(frame).tags + [tag]))
      ensures ok ==> pEthertypeLength == old(pEthertypeLength) + 4 && pPayload == old(pPayload) + 4
                     && payloadLength == old(payloadLength) && llcHeaderLength == old(llcHeaderLength)
    {
      hide Holds, Spliced, LlcOctets, SnapWritten, LengthField;
      ok := Fits(VLAN_TAG_SIZE);
      if !ok {
        return;
      }
      ghost var tag := Tag(isCTag, id, prio, dei);
      if frame.llc == [] {
        SpliceVlan(packet[..], frame, tag);
      }
      Memmove(packet, pEthertypeLength + VLAN_TAG_SIZE, pEthertypeLength, 2 + payloadLength);
      Memcpy(packet, pEthertypeLength, Tag(isCTag, id, prio, dei).Octets());
      pPayload := pPayload + VLAN_TAG_SIZE;
      pEthertypeLength := pEthertypeLength + VLAN_TAG_SIZE;
      frame := frame.(tags := frame.tags + [tag]);
    }

    /** On failure the old payload is already dropped. */
    method SetPayload(payload: seq<Byte>) returns (ok: bool)
      requires Valid()
      modifies this`payloadLength, this`frame, packet
      ensures Valid()
      ensures ok <==> pPayload + |payload| <= packetMaxLength
      ensures frame == old(frame).(payload := if ok then payload else [])
    {
      hide Holds, Spliced, LlcOctets, SnapWritten, LengthField;
      DropPayload(packet[..], frame);
      frame := frame.(payload := []);
      payloadLength := 0;
      ok := Fits(|payload|);
      if !ok {
        return;
      }
      SplicePayload(packet[..], frame, payload);
      assert [] + payload == payload;
      Memcpy(packet, pPayload, payload);
      payloadLength := |payload|;
      frame := frame.(payload := payload);
    }

    method AppendPayload(payload: seq<Byte>) returns (ok: bool)
      requires Valid()
      modifies this`payloadLength, this`frame, packet
      ensures Valid()
      ensures ok <==> old(GetLength()) + |payload| <= packetMaxLength
      ensures frame == if ok then old(frame).(payload := old(frame).payload + payload) else old(frame)
    {
      hide Holds, Spliced, LlcOctets, SnapWritten, LengthField;
      ok := Fits(|payload|);
      if !ok {
        return;
      }
      SplicePayload(packet[..], frame, payload);
      Memcpy(packet, pPayload + payloadLength, payload);
      payloadLength := payloadLength + |payload|;
      frame := frame.(payload := frame.payload + payload);
    }

    method UpdatePayloadAt(offset: nat, data: seq<Byte>) returns (ok: bool)
      requires Valid()
      modifies this`frame, packet
      ensures Valid()
      ensures ok <==> offset + |data| <= |old(frame).payload|
      ensures frame == if ok then old(frame).(payload := Spliced(old(frame).payload, offset, data)) else old(frame)
    {
      hide Holds, Spliced, LlcOctets, SnapWritten, LengthField;
      ok := offset + |data| <= payloadLength;
      if !ok {
        return;
      }
      SpliceInsidePayload(packet[..], frame, offset, data);
      Memcpy(packet, pPayload + offset, data);
      frame := frame.(payload := Spliced(frame.payload, offset, data));
    }
  }

  // ------------------------------------------------------------------------------------------
  // Tagging a frame that has an LLC header
  // ------------------------------------------------------------------------------------------

  /** addVlanTag is right for every frame with t tags, an LLC header of l octets and p octets of payload, in
      every buffer of n octets. */
  ghost predicate TagsEveryFrame(t: nat, l: nat, p: nat, n: nat)
    requires 18 + 4 * t + l + p <= n
  {
    forall b: seq<Byte>, f: Frame, tag: Tag | |b| == n && Holds(b, f) && |f.tags| == t && |f.llc| == l && |f.payload| == p ::
      Holds(VlanShifted(b, f.TypeAt(), p, tag), f.(tags := f.tags + [tag]))
  }

  /** A frame of zeros except for the first of the octets that addVlanTag leaves behind. */
  function LeftBehind(t: nat, l: nat, p: nat): Frame
    requires l > 0
  {
    var body := Zeros(p) + [1] + Zeros(l - 1);
    Frame(NO_MAC, NO_MAC, seq(t, _ => Tag(true, 0, 0, 0)), 0, body[..l], body[l..])
  }

  /** Octet k behind the type field of a frame held by a buffer. */
  lemma HeldOctet(b: seq<Byte>, f: Frame, k: nat)
    requires Holds(b, f) && k < |f.llc| + |f.payload|
    ensures b[f.TypeAt() + 2 + k] == (f.llc + f.payload)[k]
  {
    EncodeParts(f);
    assert b[..f.Length()][f.TypeAt() + 2..] == f.llc + f.payload;
    assert b[f.TypeAt() + 2 + k] == b[..f.Length()][f.TypeAt() + 2..][k];
  }

  /** addVlanTag does not move what stands more octets behind the type field than the payload is long. */
  lemma VlanLeavesOctet(b: seq<Byte>, typeAt: nat, payloadLength: nat, tag: Tag, k: nat)
    requires typeAt + 6 + payloadLength <= k < |b|
    ensures VlanShifted(b, typeAt, payloadLength, tag)[k] == b[k]
  {
  }

  lemma TagAfterLlcLosesOctets(t: nat, l: nat, p: nat, n: nat)
    requires l > 0 && 18 + 4 * t + l + p <= n
    ensures !TagsEveryFrame(t, l, p, n)
  {
    hide TagOctets, Be16, Frame.Head, Tag.Octets, Holds, VlanShifted, Frame.Encode;
    var f, tag := LeftBehind(t, l, p), Tag(true, 0, 0, 0);
    var body := Zeros(p) + [1] + Zeros(l - 1);
    assert f.llc + f.payload == body;
    EncodeLength(f);
    var b := f.Encode() + Zeros(n - f.Length());
    assert b[..f.Length()] == f.Encode();
    HoldsEncoding(b, f);
    var at := f.TypeAt();
    assert b[at + 6 + p] == 0 by {
      if 4 + p < l + p {
        HeldOctet(b, f, 4 + p);
      }
    }
    VlanLeavesOctet(b, at, p, tag, at + 6 + p);
    var g := f.(tags := f.tags + [tag]);
    if Holds(VlanShifted(b, at, p, tag), g) {
      HeldOctet(VlanShifted(b, at, p, tag), g, p);
    }
  }

  lemma HoldsEncoding(b: seq<Byte>, f: Frame)
    requires f.WellFormed() && f.Length() <= |b| && b[..f.Length()] == f.Encode()
    ensures Holds(b, f)
  {
  }

  /** addVlanTag keeps every frame of a given shape exactly when the shape has no LLC header. */
  lemma TagsEveryFrameExactlyWhen(t: nat, l: nat, p: nat, n: nat)
    requires 18 + 4 * t + l + p <= n
    ensures TagsEveryFrame(t, l, p, n) <==> l == 0
  {
    if l == 0 {
      forall b: seq<Byte>, f: Frame, tag: Tag | |b| == n && Holds(b, f) && |f.tags| == t && |f.llc| == l && |f.payload| == p
        ensures Holds(VlanShifted(b, f.TypeAt(), p, tag), f.(tags := f.tags + [tag]))
      {
        SpliceVlan(b, f, tag);
      }
    } else {
      TagAfterLlcLosesOctets(t, l, p, n);
    }
  }

  // ------------------------------------------------------------------------------------------
  // Any sequence of operations
  // ------------------------------------------------------------------------------------------

  datatype Op =
    | SetDst(mac: seq<Byte>)
    | SetSrc(mac: seq<Byte>)
    | AddTag(tag: Tag)
    | AddLlc(dsap: Byte, ssap: Byte, control: Word16)
    | AddSnap(bigEndian: bool, oui: Word32, protocol: Word16)
    | SetType(value: Word16)
    | SetLen
    | SetBody(data: seq<Byte>)
    | Append(data: seq<Byte>)
    | Update(offset: nat, data: seq<Byte>)

  datatype Outcome = Rejected | Built(frame: Frame)

  /** One operation on the abstract frame; Rejected is the range exception. */
  function Perform(f: Frame, capacity: nat, op: Op): Outcome {
    match op
    case SetDst(mac) => Built(f.(dst := mac))
    case SetSrc(mac) => Built(f.(src := mac))
    case AddTag(tag) =>
      if f.Length() + VLAN_TAG_SIZE <= capacity then Built(f.(tags := f.tags + [tag])) else Rejected
    case AddLlc(dsap, ssap, control) =>
      var g := f.(llc := LlcOctets(dsap, ssap, control));
      if g.Length() <= capacity then Built(g.(typeLength := LengthField(g))) else Rejected
    case AddSnap(bigEndian, oui, protocol) =>
      var g := f.(llc := LlcOctets(0xaa, 0xaa, 3) + SnapWritten(bigEndian, oui, protocol));
      if g.Length() <= capacity then Built(g.(typeLength := LengthField(g))) else Rejected
    case SetType(v) => Built(f.(typeLength := v))
    case SetLen => Built(f.(typeLength := LengthField(f)))
    case SetBody(data) =>
      if f.PayloadAt() + |data| <= capacity then Built(f.(payload := data)) else Rejected
    case Append(data) =>
      if f.Length() + |data| <= capacity then Built(f.(payload := f.payload + data)) else Rejected
    case Update(offset, data) =>
      if offset + |data| <= |f.payload| then Built(f.(payload := Spliced(f.payload, offset, data))) else Rejected
  }

  /** Addresses have six octets; tags come before the one LLC or SNAP header. This is the order of every caller. */
  predicate Allowed(f: Frame, op: Op) {
    match op
    case SetDst(mac) => |mac| == 6
    case SetSrc(mac) => |mac| == 6
    case AddTag(_) => f.llc == []
    case AddLlc(_, _, _) => f.llc == []
    case AddSnap(_, _, _) => f.llc == []
    case _ => true
  }

  function PerformAll(f: Frame, capacity: nat, ops: seq<Op>): Outcome
    decreases |ops|
  {
    if ops == [] then Built(f)
    else match Perform(f, capacity, ops[0])
      case Rejected => Rejected
      case Built(g) => PerformAll(g, capacity, ops[1..])
  }

  predicate AllAllowed(f: Frame, capacity: nat, ops: seq<Op>)
    decreases |ops|
  {
    ops == [] ||
    (Allowed(f, ops[0]) &&
     match Perform(f, capacity, ops[0])
     case Rejected => true
     case Built(g) => AllAllowed(g, capacity, ops[1..]))
  }

  method Execute(p: EthernetPacket, op: Op) returns (ok: bool)
    requires p.Valid() && Allowed(p.frame, op)
    modifies p, p.packet
    ensures p.packet == old(p.packet) && p.packetMaxLength == old(p.packetMaxLength)
    ensures ok <==> Perform(old(p.frame), p.packetMaxLength, op).Built?
    ensures ok ==> p.Valid() && p.frame == Perform(old(p.frame), p.packetMaxLength, op).frame
  {
    hide Holds, Spliced, LlcOctets, SnapWritten, LengthField;
    ok := true;
    match op
    case SetDst(mac) => p.SetDestMac(mac);
    case SetSrc(mac) => p.SetSrcMac(mac);
    case AddTag(tag) => ok := p.AddVlanTag(tag.isCTag, tag.vid, tag.prio, tag.dei);
    case AddLlc(dsap, ssap, control) => ok := p.AddLlcHeader(dsap, ssap, control);
    case AddSnap(bigEndian, oui, protocol) => ok := p.AddSnapHeader(bigEndian, oui, protocol);
    case SetType(v) => p.SetTypeLength(v);
    case SetLen => p.SetLength();
    case SetBody(data) => ok := p.SetPayload(data);
    case Append(data) => ok := p.AppendPayload(data);
    case Update(offset, data) => ok := p.UpdatePayloadAt(offset, data);
  }

  /** After any allowed sequence of operations the buffer starts with the encoding of the frame the same
      operations make of an empty frame, and never exceeds its capacity. */
  method BuildFrame(maxLength: nat, ops: seq<Op>) returns (p: EthernetPacket, ok: bool)
    requires maxLength >= MAC_HEADER_SIZE && AllAllowed(EMPTY_FRAME, maxLength, ops)
    ensures ok <==> PerformAll(EMPTY_FRAME, maxLength, ops).Built?
    ensures ok ==> var f := PerformAll(EMPTY_FRAME, maxLength, ops).frame;
                   && p.GetLength() == f.Length() <= maxLength <= p.packet.Length
                   && p.packet[..p.GetLength()] == f.Encode()
                   && p.pEthertypeLength == 12 + 4 * |f.tags|
                   && p.pPayload == 14 + 4 * |f.tags| + |f.llc|
  {
    p := new EthernetPacket(maxLength);
    ok := true;
    var i := 0;
    while i < |ops|
      invariant 0 <= i <= |ops| && ok
      invariant fresh(p) && fresh(p.packet) && p.Valid() && p.packetMaxLength == maxLength
      invariant AllAllowed(p.frame, maxLength, ops[i..])
      invariant PerformAll(p.frame, maxLength, ops[i..]) == PerformAll(EMPTY_FRAME, maxLength, ops)
    {
      assert ops[i..][1..] == ops[i + 1..];
      ok := Execute(p, ops[i]);
      if !ok {
        return;
      }
      i := i + 1;
    }
  }

  /** Tagging before or after the payload is set makes the same frame, and fails for the same sizes. */
  lemma TagAndPayloadCommute(f: Frame, capacity: nat, tag: Tag, data: seq<Byte>)
    requires f.payload == [] && f.Length() <= capacity
    ensures PerformAll(f, capacity, [AddTag(tag), SetBody(data)]) == PerformAll(f, capacity, [SetBody(data), AddTag(tag)])
  {
    assert [AddTag(tag), SetBody(data)][1..] == [SetBody(data)];
    assert [SetBody(data), AddTag(tag)][1..] == [AddTag(tag)];
  }

  /** The length field of the encoding counts the octets that follow it, as long as 16 bits can. */
  lemma LengthFieldCountsRest(f: Frame, capacity: nat)
    requires f.WellFormed() && |f.llc| + |f.payload| < U16
    ensures var g := Perform(f, capacity, SetLen).frame; var e := g.Encode();
            && |e| == g.Length()
            && ReadBe16(e[g.TypeAt()..g.TypeAt() + 2]) == |e| - (g.TypeAt() + 2)
  {
    hide TagOctets, SnapWritten, LlcOctets, Be16, Spliced;
    var g := Perform(f, capacity, SetLen).frame;
    EncodeParts(g);
  }
}
