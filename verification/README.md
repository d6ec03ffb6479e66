# Verification of tcppump's packet compiler and sender

tcppump compiles a small packet language into Ethernet frames and sends them on a schedule. This project models
the parts of it whose correctness is hard to see in Dafny 4.11 and proves what they promise. All properties are
stated for all inputs, all schedules or all reachable states, except for three examples of failures
(`Fragmentation.UnroundedRoomLosesData`, `Fragmentation.EmptyDatagramUnderflows`, `Fragmentation.EmptyCountWraps`) and
two worked examples of standards (`Checksum.Rfc1071Example`, `Md5Example.DigestOfAbc`).

What octets and characters mean is stated without the functions that write them: the lemmas ending in `Read` say what
a receiver finds at each position, in literal numbers, and the parsers are proved against grammars.

    dafny verify dfyconfig.toml

| module | models |
|---|---|
| `SendPipeline` | the Windows sender: a ring of send queues shared by the caller and a worker thread, as a transition system |
| `SendDelivery` | the exact conditions for delivery and for queues that never overflow |
| `Checksum` | the Internet checksum in host byte order against RFC 1071 |
| `Ethernet` | the in-place frame builder against an abstract frame |
| `Fragmentation`, `Ipv4` | the fragment loop and header compilation against reassembly after RFC 791 |
| `Transport` | UDP and TCP on top of it, with the checksum computed after fragmentation |
| `Md5Rounds`, `Md5`, `Md5Example` | incremental MD5 against the one-shot definition of RFC 1321, and a digest worked out by it |
| `ParseHelper`, `Parameters` | parameter lists: parser against grammar, lookups, VLAN groups |
| `FileParser` | splitting scripts call by call against a definition on the whole text |
| `InstructionHead` | timestamp and keyword: scanner against grammar |
| `InstructionParser` | embedded instructions: termination, depth, the shared MTU setting |
| `PacketData`, `Schedule`, `Output` | from timestamps to delays to send times |
| `ByteArray`, `Lldp` | TLV building and compiling against the receiver's decoding |
| `Igmp` | the floating-point time code of IGMPv3 |

Classes follow the source's objects; every method that changes state is proved against a function of the old
state, and the lemmas are about those functions. `hide` statements only keep proofs small.

## Findings

Where the code does not do what it is for on all inputs, the model keeps the code, and a lemma states exactly when
it does:

- Fragmentation counts fragments with the full room of a frame but fills all but the last with the room rounded
  down to eight. Unless the remainder fits, the end of the datagram is dropped (`Fragmentation.CoversAllExactlyWhen`,
  `Fragmentation.UnroundedRoomLosesData`); a UDP receiver then rejects it (`Transport.UdpAcceptedExactlyWhen`).
- An empty datagram, as `payload=""` makes one, underflows the fragment count for every MTU
  (`Fragmentation.CountRightExactlyWhen`): it is sent in as many empty frames as the wrong count says, billions
  at the usual MTU (`Ipv4.EmptyDatagramArrives`), or the count wraps to zero (`Fragmentation.EmptyCountWraps`).
- A job small enough for one send queue can still reach the switch threshold; producer and worker then share the
  queue (`SendPipeline.ExclusionExactlyWhen`), and packets can be lost exactly when that happens before the last one
  (`SendDelivery.DeliversExactlyWhen`).
- `--mtu` and raw frames allow frames above 1522 octets, for which the switch threshold may leave too little room; the
  program then stops. When that can happen depends on the job alone (`SendDelivery.OverflowFreeExactlyWhen`).
- The reader `getId` of a tag masks ten bits of the twelve (`Ethernet.IdReadExactlyWhen`); nothing calls it.
- Tagging a frame that has an LLC header corrupts it (`Ethernet.TagsEveryFrameExactlyWhen`); no caller does that.
- The assertion in the checksum routine allows some odd parts that give a wrong sum (`Checksum.RightExactlyWhen`);
  big-endian builds misread the last octet of an odd part at an odd address (`Checksum.BigEndianRightExactlyWhen`), which
  makes the checksum of a UDP or TCP packet wrong exactly when that octet is not zero (`Transport.IntactExactlyWhen`).
- Big-endian builds write most SNAP identifiers wrong (`Ethernet.SnapRightExactlyWhen`).
- On big-endian hosts the MD5 result is not in the octet order of RFC 1321 (`Md5.MemoryOrderRightExactlyWhen`,
  `Md5.SwappingRecoversDigest`). That a particular message comes out wrong is not proved.
- LLDP types and lengths are cut to 7 and 9 bits without a check; a type-0 TLV or more than 167 CDCP pairs are
  accepted and misread by a receiver (`Lldp.DecodesExactlyWhenEncodable`, `Lldp.CdcpEncodableExactlyWhen`).
- The first closing bracket ends every level of embedding, so that nesting written with one bracket per level is
  rejected (`InstructionParser.BalancedBracketsRejected`). doc/PACKET_REFERENCE.md:27 only shows one level.
- The comment in src/compiler/parameterlist.cpp:521-531 allows `_` in parameter names and says values end at white
  space; the code allows `-` instead and ends values at the first character outside their class. The model follows
  the code.
- After an error inside an embedded instruction the recursion depth stays raised; every parser object is dropped
  then, so nothing depends on it.

## Model

| member | source | states |
|---|---|---|
| SendPipeline.StepInv | src/os/win32/interface.cpp:154-220 | every step of either thread keeps the slot accounting of the three-queue ring: free, filled, worker-held and producer-held slots total three, with the queues in ring order |
| SendPipeline.ThreeQueueInv | src/os/win32/interface.cpp:117-145 | that accounting holds after every legal schedule of a three-queue job |
| SendPipeline.OneStepInv | src/os/win32/interface.cpp:154-220 | every step keeps the single-queue invariant, in which the switch threshold is never reached |
| SendPipeline.OneQueueInv | src/os/win32/interface.cpp:131-143 | the single-queue invariant holds after every legal schedule of a safely announced job |
| SendPipeline.MutualExclusion | src/os/win32/interface.cpp:154-208 | on every schedule the queue the producer may write differs from the one the worker is flushing |
| SendPipeline.ExclusionExactlyWhen | src/os/win32/interface.cpp:131-157 | for an exact announcement, mutual exclusion on all schedules holds if and only if the job is announced safely (three queues, or total size plus one maximum frame below the queue limit) |
| SendPipeline.PacketLost | src/os/win32/interface.cpp:131-178 | the losing schedule behind the exact condition of SendDelivery.DeliversExactlyWhen |
| SendDelivery.DeliversExactlyWhen | src/os/win32/interface.cpp:131-260 | for an exact announcement, every schedule that cannot be extended has sent all packets in order if and only if there are three queues or the threshold is not reached before the last packet |
| SendDelivery.EarlySwitchLoses | src/os/win32/interface.cpp:154-178 | otherwise a complete schedule exists that has not sent them |
| SendDelivery.LateQueueInv | src/os/win32/interface.cpp:147-226 | with one queue that is passed on with the last packet or not before the destructor, every state has all packets in the queue, on the wire or still to come, and a wake-up under way |
| SendDelivery.Finish | src/os/win32/interface.cpp:147-260 | every legal schedule can be continued to a complete one |
| SendPipeline.SemaphoresNeverSaturate | src/os/win32/interface.cpp:117-118 | semaphore counts stay within their maximum and no release finds a full semaphore |
| SendPipeline.ExactlyOnceInOrder | src/os/win32/interface.cpp:147-208 | transmitted packets, then the queued ones, then those still to come, are the packets given to addPacket in order, each once |
| SendPipeline.DrainBeforeExit | src/os/win32/interface.cpp:186-220 | when the worker has returned, everything handed over has been transmitted, because data wins over the termination event |
| SendPipeline.NoDeadlock | src/os/win32/interface.cpp:228-260 | until the destructor returns some step is enabled |
| SendPipeline.SchedulesAreBounded | src/os/win32/interface.cpp:147-260 | every schedule has at most nine steps a packet plus nine |
| SendPipeline.EveryScheduleDelivers | src/os/win32/interface.cpp:228-260 | every schedule that cannot be extended has delivered the whole job in order, for safely announced jobs; SendDelivery.DeliversExactlyWhen has the exact condition |
| SendPipeline.ThreeQueuesNeverOverflow | src/os/win32/interface.cpp:131-157 | with frames of at most 1522 octets no queue of a three-queue job exceeds its allocation; SendDelivery.OverflowFreeExactlyWhen has the exact condition |
| SendDelivery.OverflowFreeExactlyWhen | src/os/win32/interface.cpp:154-178 | with three queues, no schedule makes a queue exceed its allocation if and only if filling queues one after the other does not, for frames and queues of any size |
| SendDelivery.RestFitsStep | src/os/win32/interface.cpp:154-208 | no interleaving changes what the producer still has to fit |
| SendDelivery.SmallFramesFit | src/os/win32/interface.cpp:157-157 | frames of at most 1522 octets satisfy that condition when one of them fits an empty queue |
| SendPipeline.OneQueueNeverOverflows | src/os/win32/interface.cpp:131-143 | the single queue, allocated from the announced count and size, never overflows |
| Checksum.Accumulate | src/packets/inetchecksum.hpp:46-88 | both the aligned and the unaligned branch add the native-order word sum of a part to the 32-bit accumulator, modulo 2^32 |
| Checksum.Finalize | src/packets/inetchecksum.hpp:91-97 | two folds and a complement give the complemented ones' complement sum, for every 32-bit sum |
| Checksum.TwoFolds | src/packets/inetchecksum.hpp:91-97 | two folds always suffice |
| Checksum.Rfc1071 | src/packets/inetchecksum.cpp:28-49 | the two octets stored for up to three parts are a function of the parts' native sums |
| Checksum.ByteOrderIndependence | src/packets/inetchecksum.hpp:46-97 | the complemented native sum stored in host order is the big-endian RFC 1071 checksum, on either kind of host |
| Checksum.StoredResultIsChecksum | src/packets/inetchecksum.cpp:28-49 | when only the last part in use is odd and the parts total at most 131074 octets, the stored octets are the RFC 1071 checksum of the concatenation, whatever the alignments |
| Checksum.RightExactlyWhen | src/packets/inetchecksum.cpp:28-49 | on a little-endian host the routine is right for all contents if and only if no part before the last used one is odd and the total is at most 131074 |
| Checksum.OddPartBreaks | src/packets/inetchecksum.cpp:28-49 | an odd part in front of another one gives a wrong checksum for some contents; the assertion in the routine does not exclude all such calls |
| Checksum.LongMessageBreaks | src/packets/inetchecksum.hpp:46-88 | 131075 octets can lose a carry of the 32-bit accumulator |
| Checksum.BigEndianRightExactlyWhen | src/packets/inetchecksum.cpp:28-49 | on a big-endian host the routine is right for all contents of all three parts if and only if no part at an even position has odd length at an odd address, a part at an odd position is empty or one octet at an odd address, and the total is at most 131074 |
| Checksum.StoredResultWithLoss | src/packets/inetchecksum.cpp:28-49 | for two even parts and any third one, the stored octets are the checksum of the true sum less 255 times the misread last octet |
| Checksum.VerifiesExactlyWhen | src/packets/inetchecksum.hpp:46-97 | a packet with such a checksum verifies if and only if what was lost is zero modulo 65535 |
| Checksum.ChecksumVerifies | src/packets/inetchecksum.hpp:46-97 | a packet with its checksum in place verifies, also when zero is sent as all ones |
| Checksum.Rfc1071Example | src/packets/inetchecksum.hpp:46-97 | the worked example in section 3 of RFC 1071 has the sum ddf2 |
| Ethernet.EthernetPacket.constructor | src/packets/ethernetpacket.cpp:34-50 | an empty buffer holds the encoding of the empty frame |
| Ethernet.EthernetPacket.Copy | src/packets/ethernetpacket.cpp:73-88 | a copy holds the same frame in its own buffer |
| Ethernet.EthernetPacket.SetDestMac | src/packets/ethernetpacket.cpp:162-169 | changes the destination address of the held frame and nothing else |
| Ethernet.EthernetPacket.SetSrcMac | src/packets/ethernetpacket.cpp:178-184 | changes the source address of the held frame and nothing else |
| Ethernet.EthernetPacket.SetTypeLength | src/packets/ethernetpacket.cpp:143-147 | changes the type field behind all tags and nothing else |
| Ethernet.EthernetPacket.SetLength | src/packets/ethernetpacket.cpp:149-152 | the type field becomes the number of LLC and payload octets, modulo 2^16 |
| Ethernet.EthernetPacket.AddLlcHeader | src/packets/ethernetpacket.cpp:193-223 | inserts an LLC header of three or four octets in front of the payload and sets the length; fails exactly when it does not fit |
| Ethernet.EthernetPacket.AddSnapHeader | src/packets/ethernetpacket.cpp:226-249 | inserts LLC and SNAP headers in front of the payload, the latter as the host writes it, and sets the length; fails exactly when they do not fit |
| Ethernet.SnapRightExactlyWhen | src/packets/ethernetpacket.cpp:239-244 | the identifier is written most significant octet first if and only if the host is little-endian or the upper two octets agree and the lowest equals what stands above them |
| Ethernet.EthernetPacket.AddVlanTag | src/packets/ethernetpacket.cpp:252-262 | moves the cursors by one tag and shifts the buffer; without an LLC header the held frame gains one tag behind the others |
| Ethernet.EthernetPacket.SetPayload | src/packets/ethernetpacket.cpp:264-271 | replaces the payload; on failure the payload is empty |
| Ethernet.EthernetPacket.AppendPayload | src/packets/ethernetpacket.cpp:273-280 | appends to the payload, or fails and changes nothing |
| Ethernet.EthernetPacket.UpdatePayloadAt | src/packets/ethernetpacket.cpp:299-307 | overwrites octets inside the payload, or fails and changes nothing |
| Ethernet.SpliceVlan | src/packets/ethernetpacket.cpp:252-262 | on a buffer holding a frame without LLC header, the shift of addVlanTag yields a buffer holding the frame with the tag |
| Ethernet.TagsEveryFrameExactlyWhen | src/packets/ethernetpacket.cpp:252-262 | addVlanTag is right for every frame of a given shape if and only if the shape has no LLC header |
| Ethernet.TagAfterLlcLosesOctets | src/packets/ethernetpacket.cpp:258-258 | with an LLC header of any length, some frame is corrupted by tagging |
| Ethernet.Execute | src/packets/ethernetpacket.cpp:124-307 | every operation refines its abstract counterpart and fails for the same frames |
| Ethernet.BuildFrame | src/packets/ethernetpacket.cpp:124-307 | after any sequence of operations (tags before the LLC header) the buffer is the encoding of the abstract frame, with the type field at 12 + 4 tags and the payload at 14 + 4 tags + LLC, within capacity |
| Ethernet.TagAndPayloadCommute | src/packets/ethernetpacket.cpp:252-271 | a corollary of the abstract operations: tagging before or after setting the payload gives the same frame and fails for the same sizes |
| Ethernet.LengthFieldCountsRest | src/packets/ethernetpacket.cpp:149-152 | a corollary of the encoding: the length field equals the number of octets behind it, up to 65535 |
| Ethernet.FrameRead | src/packets/ethernetpacket.hpp:134-148 | a receiver finds destination, source, every tag in order, the type and the rest of the frame at their places |
| Ethernet.TagRead | src/packets/ethernetpacket.hpp:150-190 | a tag starts with 81 00 or 88 a8, and the three, one and twelve bits behind that are priority, drop eligibility and VLAN identifier |
| Ethernet.IdReadExactlyWhen | src/packets/ethernetpacket.hpp:157-160 | the program's own reader of a tag gives the VLAN identifier back if and only if it is below 1024 |
| Ethernet.LlcRead | src/packets/ethernetpacket.cpp:193-223 | DSAP, SSAP and one or two octets of control, in that order |
| Ethernet.SnapRead | src/packets/ethernetpacket.cpp:226-244 | behind AA AA 03, a receiver reads the protocol, and on a little-endian host the organization |
| Fragmentation.SizeByRemainder | src/packets/ippacket.cpp:204-218 | the closed form of a fragment's size is what cutting the remainder to the room and rounding it down computes |
| Fragmentation.FragmentsAreWellFormed | src/packets/ippacket.cpp:197-260 | fragments have no gap or overlap, all but the last carry a multiple of eight octets and the more-fragments flag, and offsets fit 13 bits |
| Fragmentation.CoversAllExactlyWhen | src/packets/ippacket.cpp:174-218 | the fragments carry the whole datagram if and only if the remainder for the last one fits a frame; room divisible by eight or a single fragment suffices |
| Fragmentation.UnroundedRoomLosesData | src/packets/ippacket.cpp:174-218 | at an MTU of 1499 a datagram of 2958 octets loses its last seven |
| Fragmentation.CountRightExactlyWhen | src/packets/ippacket.cpp:174-174 | the computed count is the number of frames needed if and only if the datagram is not empty, for every room below 2^32 |
| Fragmentation.EmptyDatagramUnderflows | src/packets/ippacket.cpp:174-174 | an example: 3993158784 frames at an MTU of 1500 |
| Fragmentation.EmptyCountWraps | src/packets/ippacket.cpp:174-174 | an example: no frame at all when 1024 octets are left behind the header |
| Fragmentation.ReassemblyUndoesFragmentation | src/packets/ippacket.cpp:197-260 | reassembly after section 3.2 of RFC 791 gives the covered prefix, in whatever order and however often the fragments arrive |
| Fragmentation.NothingBeforeEverythingArrived | src/packets/ippacket.cpp:197-260 | a receiver missing one octet of the covered prefix does not complete |
| Fragmentation.InterleavedReassembly | src/packets/ippacket.cpp:197-260 | fragments of other datagrams in between do not matter to a receiver that sorts them by identification, addresses and protocol |
| Ipv4.CompileHeader | src/packets/ippacket.hpp:108-140 | the header octets, with the automatic or the user's checksum |
| Ipv4.HeaderVerifies | src/packets/ippacket.hpp:134-139 | an automatic header checksum verifies at the receiver |
| Ipv4.HeaderFieldsRead | src/packets/ippacket.hpp:108-151 | a receiver reads every field of the header back by position and weight, with version four, the header length in words, the do-not-fragment bit and the router alert option |
| Ipv4.ParseInvertsCompile | src/packets/ippacket.hpp:108-140 | a receiver reads identification, addresses, protocol, offset, flag and data back out of header and data |
| Ipv4.SentIsReceived | src/packets/ippacket.cpp:220-260 | every frame of a job parses to the fragment it was made from |
| Ipv4.ReceiverReassembles | src/packets/ippacket.cpp:167-262 | a receiver that gets the frames in any order and number verifies their headers and reassembles the covered prefix |
| Ipv4.WholeDatagramArrivesExactlyWhen | src/packets/ippacket.cpp:167-262 | the whole datagram arrives if and only if cutting conserves it |
| Ipv4.MixedDatagramsArrive | src/packets/ippacket.cpp:167-262 | datagrams that differ in identification, an address or the protocol are reassembled each for itself however their frames are mixed |
| Ipv4.EmptyDatagramArrives | src/packets/ippacket.cpp:174-262 | an empty datagram arrives as an empty one, from as many frames as the underflown count says, which is never one |
| Ipv4.FramesWithinSendQueueMaximum | src/packets/ethernetpacket.cpp:28-31 | for an MTU of at most 1504 no frame exceeds the 1522 octets the queued sender leaves room for |
| Ipv4.FitsExactlyWhen | src/packets/ethernetpacket.cpp:28-31 | all fragments fit the default frame buffer if and only if tags, LLC header and the largest fragment do; one VLAN tag always fits; no fragment exceeds the MTU |
| Ipv4.Identifications.constructor | src/packets/ippacket.cpp:29-29 | automatic identifications start at one |
| Ipv4.IpPacket.constructor | src/packets/ippacket.cpp:32-50 | a packet starts with one frame of type IPv4 sized for the MTU and one tag |
| Ipv4.IpPacket.ToMulticastMac | src/packets/ippacket.cpp:181-190 | without an explicit destination a class D address determines the destination of the frame |
| Ipv4.IpPacket.Duplicate | src/packets/ippacket.cpp:198-199 | the fragments start as separate copies of the first frame |
| Ipv4.IpPacket.NextFragment | src/packets/ippacket.cpp:204-260 | one turn of the loop makes header and data of fragment n and leaves exactly the octets behind it |
| Ipv4.IpPacket.TakeData | src/packets/ippacket.cpp:240-258 | the layer-4 header and payload of one fragment are exactly its piece of the datagram |
| Ipv4.CutPiece | src/packets/ippacket.cpp:204-218 | what the loop cuts from the remainder is the fragment's piece, for empty datagrams too |
| Ipv4.IpPacket.CompileFragments | src/packets/ippacket.cpp:203-261 | the loop turns the copies into the frames of the job, or fails exactly when one does not fit |
| Ipv4.IpPacket.V4Compile | src/packets/ippacket.cpp:167-262 | the frame list becomes the frames of the datagram, with one identification (drawn from the counter only for several fragments without a user's one), or fails exactly when the datagram is too long or a fragment does not fit |
| Ipv4.IpPacket.GetPayloadLength | src/packets/ippacket.cpp:350-362 | the fragments' payload lengths add up to the covered length, and no frame holds only a header |
| Ipv4.IpPacket.UpdateL4Header | src/packets/ippacket.cpp:364-371 | the frames become those of the datagram with the new layer-4 header; no IP header changes |
| Ipv4.RewriteFirstPiece | src/packets/ippacket.cpp:364-371 | overwriting behind the IP header of the first frame is replacing the start of the datagram |
| Transport.CalcChecksum | src/packets/udppacket.cpp:59-94 | the value stored is never zero, and is the checksum over pseudo header, header and payload less what the sum lost |
| Transport.IntactExactlyWhen | src/packets/udppacket.cpp:59-94 | a segment carrying that value verifies at the receiver if and only if no nonzero last octet was misread |
| Transport.PseudoHeaderSum | src/packets/udppacket.cpp:67-73 | what the pseudo header adds to the sum are the words of both addresses, the protocol number and the length, as RFC 768 lists them |
| Transport.UdpFieldsRead | src/packets/udppacket.hpp:27-33 | a receiver reads ports, length and checksum back by position and weight |
| Transport.TcpFieldsRead | src/packets/tcppacket.hpp:28-54 | a receiver reads ports, sequence and acknowledgement numbers, header length, flags, window, checksum and urgent pointer back by position and weight |
| Transport.UdpPacket.Compile | src/packets/udppacket.cpp:33-41 | the frames are those of header and payload with length and checksum filled in; when cutting conserves the datagram it verifies after RFC 768 if and only if the host is little-endian or the payload does not end with a nonzero octet at odd length and odd address |
| Transport.UdpPacket.WriteChecksum | src/packets/udppacket.cpp:38-40 | computing the checksum over the fragments' summed length and rewriting the header completes the datagram |
| Transport.UdpAcceptedExactlyWhen | src/packets/udppacket.cpp:33-41 | a receiver of all frames accepts the datagram if and only if cutting conserved it and it verifies, and then has header and payload as sent |
| Transport.TcpPacket.constructor | src/packets/tcppacket.cpp:30-34 | the header starts with the shared sequence number, header length five and window 1024 |
| Transport.TcpPacket.SetSeqNumber | src/packets/tcppacket.cpp:62-66 | sets the sequence number of the header and the shared one |
| Transport.TcpPacket.Compile | src/packets/tcppacket.cpp:36-45 | the frames are those of header and payload; an automatic checksum is not zero and, when cutting conserves the segment, verifies under the same condition as for UDP; the shared sequence number advances by the data and by SYN |
| Transport.TcpPacket.WriteHeader | src/packets/tcppacket.cpp:40-43 | computing the checksum unless the user set one and rewriting the header completes the segment |
| Transport.TcpArrivesExactlyWhen | src/packets/tcppacket.cpp:36-45 | the whole segment arrives if and only if cutting conserved it, and then it is as intact as it was sent |
| Md5Rounds.FormulasAgree | src/common/md5.cpp:51-55 | the optimised formulas equal F, G, H and I of RFC 1321 |
| Md5Rounds.RotatedBitsRotate | src/common/md5.cpp:60-63 | the two shifts are a circular shift for every amount used |
| Md5Rounds.StepIsOperation | src/common/md5.cpp:60-63 | one step is one operation of section 3.4 of RFC 1321 |
| Md5Rounds.Turn | src/common/md5.cpp:60-63 | four steps on rotating registers are four operations |
| Md5Rounds.Round1 | src/common/md5.cpp:120-136 | the sixteen written-out steps are operations 1 to 16 of the table-driven definition |
| Md5Rounds.Round2 | src/common/md5.cpp:138-154 | the same for operations 17 to 32 |
| Md5Rounds.Round3 | src/common/md5.cpp:156-172 | the same for operations 33 to 48 |
| Md5Rounds.Round4 | src/common/md5.cpp:174-190 | the same for operations 49 to 64 |
| Md5.CompressedConcat | src/common/md5.cpp:100-205 | blocks may be compressed in any portions that end at block boundaries |
| Md5.Context.Body | src/common/md5.cpp:100-205 | the chaining state becomes the compression of all given blocks |
| Md5.CounterAdvances | src/common/md5.cpp:228-230 | the 29-bit and 32-bit counters with the carry test count octets modulo 2^61 |
| Md5.CounterIsBitCount | src/common/md5.cpp:280-284 | shifting the low counter by three gives the two words of the bit count |
| Md5.PaddingIsLeast | src/common/md5.cpp:267-284 | the padding is the shortest one that fills the last block |
| Md5.Context.Advance | src/common/md5.cpp:228-232 | one update of the counter, and the part of the buffer in use |
| Md5.Context.Update | src/common/md5.cpp:223-255 | for any division into updates the context stands for all octets given so far: complete blocks compressed, the rest buffered, all counted |
| Md5.Context.Final | src/common/md5.cpp:263-289 | on a little-endian host the result is the RFC 1321 digest of everything given |
| Md5.Context.Calc | src/common/md5.cpp:291-296 | the digest of one message, whatever the context was used for before |
| Md5.Context.Init | src/common/md5.cpp:212-221 | the context stands for the empty message |
| Md5.MemoryOrderRightExactlyWhen | src/common/md5.cpp:288-288 | what is handed out is the digest for all chaining words if and only if the host is little-endian |
| Md5.SwappingRecoversDigest | src/common/md5.cpp:288-288 | on a big-endian host, swapping the octets of every word handed out gives the digest |
| Md5.WordRead | src/common/md5.cpp:79-94 | the four octets of a block that make a word are that word with its low-order octet first |
| Md5.InitialOctets | src/common/md5.cpp:212-221 | the registers start with the octets section 3.3 of RFC 1321 lists |
| Md5Example.DigestOfAbc | src/common/md5.cpp:100-296 | MD5 of "abc" by the definition is 900150983cd24fb0d6963f7d28e17f72, as section A.5 of RFC 1321 has it |
| ParseHelper.SkipWhitespaces | src/compiler/parsehelper.cpp:29-35 | stops at the first character that is not white space |
| ParseHelper.NextTokenStart | src/compiler/parsehelper.cpp:37-46 | tells whether the next visible character is in the class |
| ParseHelper.NextTokenEnd | src/compiler/parsehelper.cpp:48-58 | stops at the first character outside the class |
| ParseHelper.IsOneOf | src/compiler/parsehelper.cpp:66-75 | membership |
| ParseHelper.ClassCharacters | src/compiler/parsehelper.hpp:33-54 | white space, digits, letters, and what names and bare values start with and consist of, by code point |
| Parameters.ParameterList.constructor | src/compiler/parameterlist.cpp:359-362 | list, use marks and error position are those of the scan |
| Parameters.ParameterList.ParseParameters | src/compiler/parameterlist.cpp:510-612 | the loop yields the scan's parameters and error position; the position lies inside the text |
| Parameters.ParameterList.ParseItem | src/compiler/parameterlist.cpp:543-590 | one parameter up to the end of its value, or the position of the error |
| Parameters.PrintedIsParsed | src/compiler/parameterlist.cpp:510-612 | every printed list of legal parameters, with arbitrary white space and an optional trailing comma, is read back with the same names, values, positions and indices |
| Parameters.ScanPrinted | src/compiler/parameterlist.cpp:536-601 | the same in the middle of any text |
| Parameters.ScannedIsPrinted | src/compiler/parameterlist.cpp:536-601 | every accepted list is such a printed list |
| Parameters.AcceptedExactlyWhenPrinted | src/compiler/parameterlist.cpp:510-612 | a text is accepted if and only if it is a printed list followed, unless trailing text is ignored, by white space only |
| Parameters.First | src/compiler/parameterlist.cpp:390-411 | the first parameter of a name from a position on, unless the stop name comes first |
| Parameters.ParameterList.FindParameter | src/compiler/parameterlist.cpp:390-417 | finds exactly that parameter, marks it and nothing else, and fails exactly when a mandatory one is missing |
| Parameters.ParameterList.CheckForUnusedParameters | src/compiler/parameterlist.cpp:377-386 | reports the first parameter no lookup has marked |
| Parameters.ParameterList.CompileVlanTags | src/compiler/instructionparser.cpp:504-518 | one tag for every "vid" in list order; its type, priority and drop eligibility are the first "vtype", "prio" and "dei" between that vid and the next, and missing if and only if there is none; an entry ends up marked by the loop if and only if it is a vid or such an attribute |
| Parameters.TagsAreAllVidsInOrder | src/compiler/instructionparser.cpp:509-509 | one tag for every vid, in list order |
| Parameters.TagConsumes | src/compiler/instructionparser.cpp:509-516 | between one vid and the next, exactly the first attribute of each kind is consumed |
| Parameters.DescriptionUnique | src/compiler/instructionparser.cpp:509-516 | a list and the position of a vid leave no choice of attributes |
| FileParser.FileParser.Parse | src/compiler/fileparser.cpp:81-186 | one call delivers the next instruction of the text without comments, or how the script ends; the rest of the text and the block depth are left for the next call; lines are counted; the buffer is never overrun |
| FileParser.FileParser.Grow | src/compiler/fileparser.cpp:91-104 | room for one more character, keeping what is there |
| FileParser.FileParser.NothingUnfinished | src/compiler/fileparser.cpp:152-159 | finds out whether only white space stands in front of a closing brace |
| FileParser.FileParser.TakeDelimiter | src/compiler/fileparser.cpp:124-166 | a semicolon ends the instruction, a brace opens or closes a block or is an error, as the definition on the rest of the text says |
| FileParser.ReadScript | src/compiler/compiler.cpp:162-198 | repeated calls deliver exactly the meaning of the whole text, and at its end the line number is one more than its line ends |
| FileParser.EofExactlyWhenWellNested | src/compiler/fileparser.cpp:141-185 | the end is reached without error if and only if braces balance on every prefix and nothing unfinished precedes a closing one |
| FileParser.OneInstructionPerSemicolon | src/compiler/fileparser.cpp:124-134 | a script read to its end has as many instructions as semicolons |
| FileParser.ScriptIsReadExactlyWhen | src/compiler/fileparser.cpp:81-186 | both for a text with comments |
| FileParser.CommentStripped | src/compiler/fileparser.cpp:106-118 | on every line, what follows the first number sign is dropped and the line end kept |
| FileParser.WrittenIsRead | src/compiler/fileparser.cpp:81-186 | a script written as instructions and nested blocks is read back as its instructions in order, blocks and their headers adding nothing |
| InstructionHead.HeadExactlyWhenPrinted | src/compiler/instructionparser.cpp:194-252 | a head is accepted if and only if it is written as optional timestamp (sign, digits, colon), keyword and opening parenthesis with white space between, and is read with the meaning of what is written |
| InstructionHead.NumeralIsRead | src/compiler/instructionparser.cpp:210-210 | a timestamp written in decimal is read as that number, or as 2^64 - 1 when it is larger |
| InstructionParser.InstructionParser.ParseTimestamp | src/compiler/instructionparser.cpp:194-228 | a timestamp is absolute unless it has a plus sign; the number must be there and end with a colon |
| InstructionParser.InstructionParser.ParseHead | src/compiler/instructionparser.cpp:194-252 | timestamp, keyword and opening parenthesis as in the grammar of InstructionHead.HeadExactlyWhenPrinted |
| InstructionParser.InstructionParser.Parse | src/compiler/instructionparser.cpp:59-192 | succeeds if and only if every level compiles, from the innermost out and each under its own MTU, and there are at most eight levels; yields the length of the frame; the MTU is restored on every exit, depth and current instruction on success; only the outermost packet is built with the configured MTU |
| InstructionParser.InstructionParser.Compile | src/compiler/instructionparser.cpp:82-165 | the part inside the try block: parse errors of embedded instructions pass through it without the depth being restored |
| InstructionParser.InstructionParser.CompileEmbedded | src/compiler/instructionparser.cpp:384-442 | parses the embedded instruction with an MTU of 32768 and restores the MTU however that ends |
| InstructionParser.Embedded | src/compiler/instructionparser.cpp:387-402 | an embedded instruction starts strictly behind the start of the one containing it |
| InstructionParser.ScannedListLocated | src/compiler/parameterlist.cpp:560-582 | every bracketed value stands where its parameter says |
| InstructionParser.EmbeddedExactlyWhenBracketed | src/compiler/instructionparser.cpp:387-402 | of the values that can be read, exactly those in angle brackets are embedded instructions |
| InstructionParser.BalancedBracketsRejected | src/compiler/parameterlist.cpp:569-580 | one closing bracket ends all levels: with a second one behind the list the instruction is rejected at that bracket |
| PacketData.PacketList.AddPacket | src/compiler/packetdata.hpp:49-69 | appends to the linked list and keeps the counters equal to the number and size of all frames of all packets |
| PacketData.PacketList.UpdateStats | src/compiler/packetdata.hpp:99-122 | counts every fragment of a packet |
| Schedule.Compiler.AddInstruction | src/compiler/compiler.cpp:164-187 | an instruction with an absolute timestamp is due that many units after the base, one with a relative timestamp that many after the one before it, one without timestamp the default delay in whole units after it; it gets the time since the one before it, and is refused exactly when it lies in the past |
| Schedule.Compiler.ProcessPackets | src/compiler/compiler.cpp:99-139 | packets carry the differences of times at which every instruction is due as its timestamp says, counted from zero; fails exactly when there are no such times |
| Schedule.Compiler.ProcessScriptFiles | src/compiler/compiler.cpp:142-200 | the same for script files, each counting from the end of the one before; fails exactly when no times do what the files say |
| Schedule.DelayIsDifference | src/compiler/compiler.cpp:118-135 | a relative or default delay is the difference it makes, modulo 2^64 |
| Schedule.FollowsExactlyWhen | src/compiler/compiler.cpp:164-187 | the computed times are the only ones at which every instruction of a file is due, and none are computed exactly when there are none |
| Schedule.ScriptFollowsExactlyWhen | src/compiler/compiler.cpp:160-187 | the same for all script files |
| Output.SendAll | src/engine/output.cpp:81-124 | the running clock sends every frame of every repetition at the sum of the delays, all frames of one packet at once; count and size are announced times the repetitions |
| Output.SendRound | src/engine/output.cpp:98-119 | one pass over the list, from the clock where the pass before it stopped |
| Output.SentAtScriptTime | src/engine/output.cpp:98-104 | in repetition k instruction i is sent at k times the script's duration plus its own time |
| Output.RunFollowsScript | src/engine/output.cpp:98-119 | the log of a run is the scripted log, for any number of repetitions |
| Output.PlayScripts | src/tcppump.cpp:297-336 | from script files to sent frames: sent at the times at which the files say the instructions are due, refused exactly when there are no such times, and an exact announcement to the queued sender |
| Output.NeverDecreasesExactlyWhen | src/engine/output.cpp:98-119 | send times never decrease if and only if the whole run ends within 64 bits of microseconds |
| Output.AnnouncementIsHonest | src/engine/output.cpp:89-94 | the announced count and size are those of the packets sent, so the single-queue allocation covers the job |
| ByteArray.ByteArray.Append | src/common/bytearray.hpp:73-79 | appends, growing when necessary; only a fixed array that is too small refuses and is unchanged |
| ByteArray.ByteArray.Resize | src/common/bytearray.hpp:128-155 | keeps the contents, or their front when shortened |
| ByteArray.ByteArray.AlignLength | src/common/bytearray.hpp:156-161 | a multiple of the chunk size, at least one chunk, and less than one chunk more than needed |
| Lldp.LldpPacket.Build | src/packets/lldppacket.cpp:67-74 | filling a fixed array part by part succeeds and fills it exactly if and only if its size is the sum of the parts |
| Lldp.LldpPacket.AddChassisID | src/packets/lldppacket.cpp:67-74 | one more TLV; the array is filled exactly |
| Lldp.LldpPacket.AddManagementAddress | src/packets/lldppacket.cpp:169-183 | one more TLV with lengths in place; the array is filled exactly |
| Lldp.LldpPacket.AddCDCP | src/packets/lldppacket.cpp:348-367 | one more TLV with three octets a pair; the array is filled exactly |
| Lldp.LldpPacket.AddBuilt | src/packets/lldppacket.cpp:67-671 | any builder, given parts of the lengths it appends, adds them as one TLV, and fills its array exactly unless it is addPnNmeManagementAddr |
| Lldp.FillsExactlyWhen | src/packets/lldppacket.cpp:67-671 | parts of the lengths a builder appends are together as long as the array it allocates, for all lengths and contents, if and only if it is not addPnNmeManagementAddr |
| Lldp.UnpackedExactlyWhen | src/packets/lldppacket.cpp:360-364 | packed pairs are read back if and only if all identifiers have at most twelve bits |
| Lldp.CdcpEncodableExactlyWhen | src/packets/lldppacket.cpp:351-356 | the TLV fits its length field if and only if there are at most 167 pairs; the parser does not check that |
| Lldp.CdcpHeadRead | src/packets/lldppacket.cpp:353-358 | in front of the pairs a receiver reads 00-80-C2, subtype 14, the role bit, the S-component bit and twelve bits of channel capacity |
| Lldp.LldpPacket.Compile | src/packets/lldppacket.cpp:673-698 | the payload becomes the encoding of all TLVs, with the multicast destination unless one was set; fails exactly when it does not fit |
| Lldp.DecodesExactlyWhenEncodable | src/packets/lldppacket.cpp:683-697 | decoding after clause 8 of IEEE 802.1AB-2016 gives back the TLVs in order if and only if every type is 1 to 127 and every value has at most 511 octets |
| Igmp.FloatToTime | src/packets/igmppacket.cpp:133-156 | the loop computes the largest code that does not exceed the time |
| Igmp.TimeCodeIsLargest | src/packets/igmppacket.cpp:133-156 | its decoding after section 4.1.1 of RFC 3376 does not exceed the input, and no larger code has that property |
| Igmp.TimeCodeMonotone | src/packets/igmppacket.cpp:133-156 | longer times never get smaller codes |
| Igmp.TimeCodeInvertsDecoding | src/packets/igmppacket.cpp:133-156 | encoding undoes decoding on all 256 codes |
| Igmp.ErrorSmallExactlyWhen | src/packets/igmppacket.cpp:133-156 | from 128 on the relative error is below one sixteenth if and only if the time is below 16/15 of 31744 |

## Left out

- SIGINT and thread-killing paths of the sender, its statistics and time measurement; transmission is taken to send all queued packets.
- Waiting on handles is modelled by its documented meaning: semaphore counts, an auto-reset event, and the lowest signalled index winning.
- Sockets, packet capture files, clocks, sleeping, address resolution, the packet preprocessor and text output.
- bug.hpp is not part of this model: BUG and BUG_ON are taken to stop the program, and what they demand appears as a requirement or is proved.
- IPv6: headers are compiled for a single frame only, fragmentation is asserted away in the source.
- Ipv4.IpPacket.V4Compile: does not cover an empty datagram whose fragment count wraps to zero (`Fragmentation.EmptyCountWraps`; the source then stores a frame pointer in an array without elements), and an MTU not above the header length or a layer-4 header that does not fit the first fragment after rounding, where lengths underflow in the source; the program only accepts MTUs from 68 on, so that UDP and TCP headers always fit.
- Transport.UdpPacket.Compile: covers the first compilation of a packet only; a second one would sum the old checksum. Overwriting a UDP checksum by the user afterwards is left out; it rewrites the header as modelled.
- Transport.CalcChecksum: promises nothing but a nonzero result beyond 131074 octets; its callers have refused more than 65535 before.
- Ethernet.EthernetPacket.AddVlanTag: promises the new buffer but not a well-formed frame when there is an LLC header, because there it is not one.
- Raw frames (`setRaw`): for fewer than 14 octets the payload length underflows; nothing later in this model uses them.
- Moving frames between objects (move constructor and assignment), and sharing between a frame and its buffer.
- Md5.Context.Body: assumes that the block size argument is not truncated; where `unsigned long` has 32 bits and `size_t` has 64 (64-bit Windows), a single update of 4 GiB or more loses blocks.
- Counters of type `size_t`, `unsigned` and `int` (line numbers, packet counts, buffer sizes) are unbounded; checksum sums, fragment counts, identifications, sequence numbers, MD5 words and counters, and times have their widths.
- Characters outside ASCII in scripts: classification is that of the C locale.
- Converting parameter values to numbers, addresses, octet strings and UUIDs, and random values.
- Parameters.ParameterList.CompileVlanTags: finds the parameters of every tag; reading their numbers, which may end the loop by an exception, is left out.
- The keyword table, per-protocol parameters, and what each protocol makes of them: `InstructionParser.Protocols` stands for any of them: it may depend on keyword, parameters, MTU, the demand for an Ethernet header, fixed settings and the length of the embedded frame, but not on sequence numbers, identifications or random values, which change octets and not lengths. An embedded packet type without an Ethernet frame, which the source rejects, does not occur in the model.
- FileParser.FileParser.Parse: delivers the text of an instruction; parsing it is `InstructionParser`. Running out of memory is left out.
- Endless repetition (repeat 0) and PCAP replay with floating-point scaling.
- Schedule.Compiler.AddInstructions: stands for the two loops of processPackets and processScriptFiles, which differ only in what absolute times count from.
- Lldp.LldpPacket.AddBuilt: takes the parts of a builder as given; what each builder writes into them is left out except for the three with methods of their own. `addPnNmeManagementAddr` sizes its array for an identifier it does not write; nothing calls it. `addEndTLV` adds a type-0 TLV of one octet, which no receiver accepts.
- IGMP messages other than the time code; STP, VRRP, GRE, ICMP, ARP and VXLAN packets, which only set fields.
- `floatToTime` is modelled on reals: the conversion of a double is exact in its range. Negative times are not converted by C++ in a defined way.
