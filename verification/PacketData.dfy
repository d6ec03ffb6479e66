/** The list of compiled packets: a linked list with counters. */
module PacketData {
  import opened SendPipeline

  /** A compiled packet: one Ethernet frame, or an IP packet with one frame per fragment. */
  class Linkable {
    const isIp: bool
    const frames: seq<Packet>
    var time: nat
    var next: Linkable?

    constructor (isIp: bool, frames: seq<Packet>)
      requires !isIp ==> |frames| == 1
      ensures this.isIp == isIp && this.frames == frames && time == 0 && next == null
    {
      this.isIp, this.frames, time, next := isIp, frames, 0, null;
    }

    /** An Ethernet packet is exactly one frame. */
    predicate Proper() {
      !isIp ==> |frames| == 1
    }
  }

  /** All frames in the order of the list. */
  function AllFrames(items: seq<Linkable>): seq<Packet> {
    if items == [] then [] else AllFrames(items[..|items| - 1]) + items[|items| - 1].frames
  }

  function Octets(q: seq<Packet>): nat {
    if q == [] then 0 else Octets(q[..|q| - 1]) + |q[|q| - 1].octets|
  }

  lemma {:induction false} OctetsConcat(a: seq<Packet>, b: seq<Packet>)
    ensures Octets(a + b) == Octets(a) + Octets(b)
  {
    if b == [] {
      assert a + b == a;
    } else {
      assert (a + b)[..|a + b| - 1] == a + b[..|b| - 1];
      OctetsConcat(a, b[..|b| - 1]);
    }
  }

  /** A queue of packets holds their octets and one header each. */
  lemma {:induction false} QueuedIsHeadersAndOctets(q: seq<Packet>)
    ensures QueuedBytes(q) == |q| * HEADER_SIZE + Octets(q)
  {
    if q != [] {
      QueuedIsHeadersAndOctets(q[..|q| - 1]);
    }
  }

  class PacketList {
    var head: Linkable?
    var tail: Linkable?
    var elements: nat
    var ethPackets: nat
    var ipv4Packets: nat
    var totalBytes: nat
    ghost var items: seq<Linkable>

    /** The list runs through all items, each once, and the counters count every frame. */
    ghost predicate Valid()
      reads this, items
    {
      && (forall i, j | 0 <= i < j < |items| :: items[i] != items[j])
      && (forall i | 0 <= i < |items| :: items[i].Proper())
      && (if items == [] then head == null && tail == null else head == items[0] && tail == items[|items| - 1])
      && (forall i | 0 <= i < |items| :: items[i].next == if i + 1 < |items| then items[i + 1] else null)
      && elements == |items|
      && ethPackets == |AllFrames(items)| && totalBytes == Octets(AllFrames(items))
    }

    constructor ()
      ensures Valid() && items == []
    {
      head, tail, elements, ethPackets, ipv4Packets, totalBytes, items := null, null, 0, 0, 0, 0, [];
    }

    method AddPacket(packet: Linkable)
      requires Valid() && packet !in items && packet.Proper()
      modifies this, packet`next, if tail != null then {tail} else {}
      ensures Valid() && items == old(items) + [packet]
      ensures forall p: Linkable | p in items :: p.time == old(p.time)
    {
      hide AllFrames, Octets;
      if head == null {
        head := packet;
      } else {
        tail.next := packet;
      }
      tail := packet;
      packet.next := null;
      elements := elements + 1;
      UpdateStats(packet);
      assert (items + [packet])[..|items|] == items by { FramesSnoc(items, packet); }
      FramesSnoc(items, packet);
      items := items + [packet];
    }

    /** Counts every frame of the packet. */
    method UpdateStats(packet: Linkable)
      requires packet.Proper()
      modifies this`ethPackets, this`ipv4Packets, this`totalBytes
      ensures ethPackets == old(ethPackets) + |packet.frames|
      ensures totalBytes == old(totalBytes) + Octets(packet.frames)
    {
      if !packet.isIp {
        ethPackets := ethPackets + 1;
        totalBytes := totalBytes + |packet.frames[0].octets|;
        assert packet.frames[..0] == [];
      } else {
        ipv4Packets := ipv4Packets + 1;
        var i := 0;
        while i < |packet.frames|
          invariant 0 <= i <= |packet.frames|
          invariant ethPackets == old(ethPackets) + i
          invariant totalBytes == old(totalBytes) + Octets(packet.frames[..i])
        {
          ethPackets := ethPackets + 1;
          totalBytes := totalBytes + |packet.frames[i].octets|;
          assert packet.frames[..i + 1][..i] == packet.frames[..i];
          i := i + 1;
        }
        assert packet.frames[..i] == packet.frames;
      }
    }
  }

  lemma FramesSnoc(items: seq<Linkable>, packet: Linkable)
    ensures AllFrames(items + [packet]) == AllFrames(items) + packet.frames
    ensures Octets(AllFrames(items + [packet])) == Octets(AllFrames(items)) + Octets(packet.frames)
  {
    assert (items + [packet])[..|items|] == items;
    OctetsConcat(AllFrames(items), packet.frames);
  }
}
