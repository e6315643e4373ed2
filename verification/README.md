# Verified models of the pkgsrc patches' hard core

The repository carries patches and one whole C file. This project models the four places in it where
correctness is not obvious, and proves what each of them is for.

**The raw packet path of the NetworkManager BSD port.** `BpfMachine` is an interpreter for classic BPF,
`ClientFilter` the Linux filter and the BSD one that was rewritten to read whole Ethernet frames.
`InetChecksum`, `UdpDatagram` and `BpfFraming` are the Internet checksum (RFC 1071), the fields of an IPv4 UDP
packet (RFC 791, RFC 768) and the records of a BPF read, which `BpfLayout` lays out. `PacketBsd` builds and parses frames,
`PacketLinux` is the receiver it replaces, and `PacketTheorems` says how sender, parser, receiver and
filter fit together. `PacketOctets` says the same in single octets: which packets are delivered, what becomes of a
corrupt IP header, and the frame that goes out. `AcdArp` is the ARP side.

**The Mach-O dumper `unexmacosx.c`.** `Regions` and `Allocator` are the table of dumped regions and the
allocator that consults it, `PageAlign` the aligning pass of the emacs26 patch. `MachO` has load commands, files
and logs of writes; `DumpSpec` says as functions what a dump writes; `Dumper` is the imperative program,
proved to compute exactly that. `DumpWrites`, `DumpRun` and `DumpRest` follow the last write to every offset
through a run; `DumpTheorems` and `DumpOffsets` conclude that the header is rebuilt, that loading the output
gives back memory, which file offsets stay true and that nothing overlaps; `DumpImage` puts all segments together
and `Snapshot` goes from recorded ranges to that image. `DumpFields` says what every rewritten load command contains and
that it is true of the output. `DumpSuccess` says exactly when a dump succeeds, and
`DumpExample` is an executable that meets all hypotheses, or shows what goes wrong where they are not met.

**Quoting in etags.** `ShellQuote` has the writer and the shell's own reading (sections 2.2.1 and 2.2.2 of
the Shell Command Language in POSIX.1-2017), and proves that one inverts the other.

**The OS seam.** `OsTimer` has the kqueue timers of both libraries, `CConnection` the DHCP connection's
two descriptors and their registration with the poller.

`Bytes`, `Errno` and `Protocol` hold words, sequences and constants.

Code that works step by step is a method proved against a function of its inputs, and the theorems are
about those functions. Receivers and the parser are methods that write into an array; the region table,
the allocator, the timer, the connection and the dumper are classes.

Where the code and its comments differ, the model follows the code:

- The patch that adds `packet-bsd.c` says that the Linux file does not verify the IP header checksum
  (`NetworkManager/patches/patch-src_n-dhcp4_src_util_packet-bsd.c:9-12`). It does, unless the kernel marks the
  checksum as not ready (`NetworkManager/patches/patch-src_n-dhcp4_src_util_packet-linux.c:297`); agreement is
  proved for packets that are not so marked.
- The ARP filter is described as passing ARP "only for us"; its program passes all Ethernet ARP
  (`NetworkManager/patches/patch-src_n-acd_src_n-acd-os-bsd.c:76-89`).
- The text-segment offset that limits the dumped header is described as the lowest of all sections; the
  loop only ever looks at the first (`emacs21/files/unexmacosx.c:576-578`).

## Results that hold only under a condition

- The Linux receiver and the BSD parser agree on a deliverable packet if and only if it is not a fragment and fits
  the caller's buffer. Behind the filters they agree if and only if the packet fits the buffer exactly when its
  frame has at most 65535 octets: the BSD filter's return value was not moved by 14, so it cuts longer frames.
- Send and parse are inverse if and only if the payload has at most 65507 octets, since the length fields wrap.
- A one-word change of a deliverable packet's IP header, which leaves the header's length alone, survives if and only if
  the packet keeps its shape and the words are congruent modulo 65535. A word that changes the length can survive: the
  same packet is delivered with either length.
- A one-word change of the payload of a datagram that carries a checksum survives if and only if the words are
  congruent modulo 65535.
- A timer that counts milliseconds is armed for its deadline or later if and only if the addition that rounds up stays
  within 64 bits.
- Giving up the drained packet socket unregisters a watched descriptor if and only if the connection still holds
  it; a failed listen while draining leaves the phase behind without it.
- The allocator tells dumped blocks apart from the start if and only if every block lies in one of the first 200
  ranges recorded (and the merge lost none of them); the rest are dropped with a message, and a block there is passed
  to the system's free.
- The merge keeps the covered addresses if and only if no run of touching regions has sizes that add up to 2^32, which
  the 32-bit sum makes zero, or the regions outside of such runs have every address anyway. Regions that leave a hole
  have no such run; for regions that do not overlap, leaving a hole is the exact condition.
- The dump of a well-formed executable succeeds if and only if all that it copies is in the input, it knows all
  sections and relocations, and the commands with 56 octets per region fit in front of the text.
- A relocation entry is undone if and only if it lies in the data segment and that ends below 2^32, as the end is computed
  in 32 bits; and that succeeds only below 0x80000000, as the entry's address is a signed field.
- The dumper's check for room protects every text section if and only if no text section lies lower than
  every first section.
- A table offset in a load command still addresses its bytes after the dump if and only if the command and the
  contents that the table lies in stand on the same side of the data segment (or nothing grew).

## Model

| member | source | states |
|---|---|---|
| BpfMachine.RelocationSimulates | NetworkManager/patches/patch-src_n-dhcp4_src_n-dhcp4-socket-bsd.c:98-112 | A program whose positions move by e and whose length test grows by e, run on a frame, does what the original does on the frame without its first e octets, from any instruction and any registers, up to the end of the relocated block. |
| ClientFilter.AgreeFromLengthCheck | NetworkManager/patches/patch-src_n-dhcp4_src_n-dhcp4-socket-bsd.c:239-278 | From the length check on, both filters agree even where A - X wraps around 32 bits and only a later load rejects. |
| ClientFilter.FilterEquivalence | NetworkManager/patches/patch-src_n-dhcp4_src_n-dhcp4-socket-bsd.c:209-278 | For every frame shorter than 2^32: the BSD filter returns the Linux filter's verdict on the frame without its first 14 octets if there are 14 and the ethertype is IPv4, and rejects otherwise. |
| ClientFilter.LinuxFilterMeaning | NetworkManager/patches/patch-src_n-dhcp4_src_n-dhcp4-socket-linux.c:57-115 | The Linux filter accepts exactly the packets that are unfragmented UDP to port 68, long enough, with a BOOTREPLY op and the DHCP cookie. |
| ClientFilter.BsdFilterMeaning | NetworkManager/patches/patch-src_n-dhcp4_src_n-dhcp4-socket-bsd.c:209-278 | The BSD filter accepts exactly the IPv4 frames that carry such a packet. |
| InetChecksum.InternetChecksum | NetworkManager/patches/patch-src_n-dhcp4_src_util_packet.c:57-58 | The accumulate-and-fold loop computes the complement of the one's-complement sum of RFC 1071 section 1. |
| InetChecksum.InternetChecksumUdp | NetworkManager/patches/patch-src_n-dhcp4_src_util_packet.c:101-119 | The same over the pseudo-header, the UDP header and the payload, in that layout. |
| InetChecksum.OnesSumIsFold | NetworkManager/patches/patch-src_n-dhcp4_src_util_packet.c:57-58 | Adding with end-around carry at each step and folding one wide sum at the end give the same word. |
| InetChecksum.SumBounded | NetworkManager/patches/patch-src_n-dhcp4_src_util_packet.c:97 | The accumulated sum is at most 65535 per octet, so the 64-bit accumulator cannot wrap on any packet. |
| InetChecksum.VerifiesIff | NetworkManager/patches/patch-src_n-dhcp4_src_util_packet-bsd.c:310-316 | Data verifies exactly when its words sum to a positive multiple of 65535. |
| InetChecksum.PlainSumIsOctets | NetworkManager/patches/patch-src_n-dhcp4_src_util_packet.c:57-58 | The sum counts every octet 256 times or once by its position, an odd last one as if a zero followed. |
| InetChecksum.ChecksumCompletes | NetworkManager/patches/patch-src_n-dhcp4_src_util_packet.c:57-58 | The checksum is what that sum lacks to a multiple of 65535, and 65535 only for zeros. |
| InetChecksum.OddIsPadded | NetworkManager/patches/patch-src_n-dhcp4_src_util_packet.c:57-58 | Data of odd length has the checksum of the data with a zero behind it. |
| InetChecksum.UdpSumOfParts | NetworkManager/patches/patch-src_n-dhcp4_src_util_packet.c:101-119 | The UDP checksum sums the addresses, 17, the UDP length twice, the ports, the checksum field and the data. |
| InetChecksum.PseudoHeaderOctets | NetworkManager/patches/patch-src_n-dhcp4_src_util_packet.c:101-119 | The octets of the packed structure: both lengths are 8 more than the data's, cut to 16 bits. |
| InetChecksum.StoredChecksumVerifies | NetworkManager/patches/patch-src_n-dhcp4_src_util_packet-bsd.c:185-205 | Storing the checksum of data with a zero field makes the data verify; so does storing 0xffff for a computed 0. |
| InetChecksum.ChangedWordDetected | NetworkManager/patches/patch-src_n-dhcp4_src_util_packet-bsd.c:325-333 | Verified data with one aligned word replaced verifies if and only if the words are congruent modulo 65535. |
| InetChecksum.ByteOrderIndependence | NetworkManager/patches/patch-src_n-dhcp4_src_util_packet.c:57-58 | Summing words of the other byte order gives the byte-swapped checksum, so the stored octets are the same. |
| BpfFraming.WordAlign | NetworkManager/patches/patch-src_n-dhcp4_src_util_packet-bsd.c:284 | Alignment never shortens, and adds less than one word. |
| BpfFraming.FrameOctets | NetworkManager/patches/patch-src_n-dhcp4_src_util_packet-bsd.c:278-284 | A frame's octet i is the buffer's, the header's length behind the record's start. |
| BpfFraming.FieldOctets | NetworkManager/patches/patch-src_n-dhcp4_src_util_packet-bsd.c:278-284 | The header's fields in single octets, in either byte order. |
| BpfFraming.WordAlignAligns | NetworkManager/patches/patch-src_n-dhcp4_src_util_packet-bsd.c:284 | Alignment gives a multiple of the word. |
| BpfFraming.StrideAdvances | NetworkManager/patches/patch-src_n-dhcp4_src_util_packet-bsd.c:278-284 | Behind any header that passes the checks, whatever its fields say, the loops move past the whole record, by at least a header's size. |
| BpfFraming.NextOfRecord | NetworkManager/patches/patch-src_n-acd_src_n-acd-os-bsd.c:245-256 | Behind a laid-out record the loops find the next one, at its padded end. |
| BpfLayout.LayoutIsLaidOut | NetworkManager/patches/patch-src_n-acd_src_n-acd-os-bsd.c:245-256 | Every list of records has a layout as the kernel's, for any header fields that do not overlap. |
| PacketBsd.CheckPacket | NetworkManager/patches/patch-src_n-dhcp4_src_util_packet-bsd.c:292-333 | The checks in their order deliver a packet's payload and sender exactly if it is well shaped and both checksums verify. |
| PacketBsd.CheckRecord | NetworkManager/patches/patch-src_n-dhcp4_src_util_packet-bsd.c:286-333 | The same for one record: truncated captures and short frames deliver nothing. |
| PacketBsd.PacketBsdParse | NetworkManager/patches/patch-src_n-dhcp4_src_util_packet-bsd.c:261-353 | Over any read buffer, malformed or not: writes the first record's payload that passes every check, cut to the caller's buffer, and its sender; ignores what follows; otherwise changes nothing and reports zero. |
| PacketBsd.FillIpHeader | NetworkManager/patches/patch-src_n-dhcp4_src_util_packet-bsd.c:169-185 | Filled field by field, the IP header has the octets of RFC 791 section 3.1 and its checksum. |
| PacketBsd.PacketSendtoUdp | NetworkManager/patches/patch-src_n-dhcp4_src_util_packet-bsd.c:140-232 | Writes one frame: the recipient's hardware address, the interface's own, 0x0800, and the packet; reports the payload's length if and only if it was written whole, and otherwise -EINVAL, the lookup's error, the write's, or -EIO. |
| PacketLinux.Peek | NetworkManager/patches/patch-src_n-dhcp4_src_util_packet-linux.c:201-231 | The peek gives the IP header length exactly for packets of 20 octets or more with version 4 and a header length of at least 20. |
| PacketLinux.CheckLengths | NetworkManager/patches/patch-src_n-dhcp4_src_util_packet-linux.c:252-289 | The length checks on the scattered headers pass exactly if the packet fits the buffers and its lengths are consistent. |
| PacketLinux.CheckSums | NetworkManager/patches/patch-src_n-dhcp4_src_util_packet-linux.c:297-318 | Both checksums, computed from the scattered buffers, are those of the packet; a zero UDP checksum is not looked at. |
| PacketLinux.PacketRecvfromUdp | NetworkManager/patches/patch-src_n-dhcp4_src_util_packet-linux.c:159-329 | Delivers a packet's payload and sender exactly if it is accepted, and reports zero otherwise. |
| PacketLinux.ScatteredOctets | NetworkManager/patches/patch-src_n-dhcp4_src_util_packet-linux.c:233-250 | The caller's buffer holds the packet's octets behind the headers as far as they go, and otherwise its own. |
| PacketTheorems.ParseInvertsLayout | NetworkManager/patches/patch-src_n-dhcp4_src_util_packet-bsd.c:271-350 | A buffer laid out from any list of records delivers the first of them that delivers anything. |
| PacketTheorems.BsdDeliveryIsParsed | NetworkManager/patches/patch-src_n-dhcp4_src_util_packet-bsd.c:271-350 | One whole frame in one record is parsed to what its packet delivers. |
| PacketTheorems.ReceiversAgreeIff | NetworkManager/patches/patch-src_n-dhcp4_src_util_packet-linux.c:252-329 | Without the filter, the receivers agree if and only if a deliverable packet is no fragment and fits the buffer. |
| PacketOctets.DeliverableIff | NetworkManager/patches/patch-src_n-dhcp4_src_util_packet-bsd.c:292-333 | A packet passes the receivers' checks if and only if it has at least 28 octets, version 4, protocol 17, consistent lengths, an IP header whose octets add up to a positive multiple of 65535, and a zero UDP checksum or addresses, 17, UDP length and datagram that add up likewise. |
| PacketOctets.BsdDeliveryOctets | NetworkManager/patches/patch-src_n-dhcp4_src_util_packet-bsd.c:335-349 | The parser delivers of such a packet the octets behind the UDP header, as many as the buffer takes, and the source address and port; of others nothing. |
| PacketOctets.LinuxDeliveryOctets | NetworkManager/patches/patch-src_n-dhcp4_src_util_packet-linux.c:252-329 | The Linux receiver delivers the same octets, if neither the more-fragments bit nor a fragment offset is set and the packet fits. |
| PacketOctets.ChangedHeaderIff | NetworkManager/patches/patch-src_n-dhcp4_src_util_packet-bsd.c:310-316 | A deliverable packet with one aligned IP header word replaced, the header's length kept, is delivered if and only if it keeps its shape and the words are congruent modulo 65535. |
| PacketOctets.CorruptHeaderDropped | NetworkManager/patches/patch-src_n-dhcp4_src_util_packet-bsd.c:310-316 | So both receivers drop it if they are not. |
| PacketOctets.HeaderLengthMatters | NetworkManager/patches/patch-src_n-dhcp4_src_util_packet-bsd.c:310-316 | A packet that is delivered with its header length as 20 and, that word alone changed, as 24. |
| PacketOctets.SentOctets | NetworkManager/patches/patch-src_n-dhcp4_src_util_packet-bsd.c:159-205 | Every octet of a sent packet but the checksums: version, DSCP, lengths, no identification, do-not-fragment, TTL 64, addresses, ports and payload. |
| PacketOctets.SentAddsUp | NetworkManager/patches/patch-src_n-dhcp4_src_util_packet-bsd.c:185-205 | Its IP header adds up, and the datagram as well if its length was not cut. |
| PacketOctets.SentFrameFiltered | NetworkManager/patches/patch-src_n-dhcp4_src_util_packet-bsd.c:140-232 | Of all frames that are sent, whatever the payload, the client's filter passes exactly those to port 68 that are long enough and carry op 2 and the cookie 63 82 53 63. |
| PacketOctets.SentFrameParsed | NetworkManager/patches/patch-src_n-dhcp4_src_util_packet-bsd.c:140-353 | The frame that is sent, captured whole, is parsed back to its payload and sender if and only if the payload has at most 65507 octets. |
| PacketTheorems.KeptDelivers | NetworkManager/patches/patch-src_n-dhcp4_src_n-dhcp4-socket-linux.c:114 | What the filter's 65535 leaves of a packet does not change what the Linux receiver delivers. |
| PacketTheorems.FilteredReceiversAgree | NetworkManager/patches/patch-src_n-dhcp4_src_util_packet-bsd.c:282-349 | On every frame that the client filter accepts, cut to what the filter keeps, parser and Linux receiver deliver the same octets and sender if and only if a deliverable packet fits the caller's buffer exactly when its frame has at most 65535 octets. |
| PacketTheorems.LongReplyCut | NetworkManager/patches/patch-src_n-dhcp4_src_n-dhcp4-socket-bsd.c:277 | A reply within 14 octets of the longest is delivered by the Linux receiver, and cut by the filter and dropped by the parser. |
| PacketTheorems.SentPacketShape | NetworkManager/patches/patch-src_n-dhcp4_src_util_packet-bsd.c:176-214 | A receiver reads back from a sent packet every field that was put in. |
| PacketTheorems.SentIpSumVerifies | NetworkManager/patches/patch-src_n-dhcp4_src_util_packet-bsd.c:185 | Every sent IP header verifies, for any addresses, DSCP and size. |
| PacketTheorems.SentUdpSumVerifies | NetworkManager/patches/patch-src_n-dhcp4_src_util_packet-bsd.c:191-205 | Every sent UDP checksum verifies, including the flip from 0 to 0xffff. |
| PacketTheorems.SendParseRoundTrip | NetworkManager/patches/patch-src_n-dhcp4_src_util_packet-bsd.c:140-353 | A built frame, captured as a record, is parsed back to exactly its payload and sender, if and only if the payload fits the 16-bit IP length. |
| PacketTheorems.OneReadRoundTrip | NetworkManager/patches/patch-src_n-dhcp4_src_util_packet-bsd.c:140-353 | The same for a read laid out from just that frame, which there is for every frame and every header layout. |
| PacketTheorems.ShortBufferDisagreement | NetworkManager/patches/patch-src_n-dhcp4_src_util_packet-bsd.c:335-336 | With too small a buffer, every sent datagram is dropped by the Linux receiver and truncated by the parser. |
| PacketTheorems.SentReplyPassesFilter | NetworkManager/patches/patch-src_n-dhcp4_src_n-dhcp4-socket-bsd.c:209-278 | A frame sent to the client port passes the client's filter if and only if its ethertype is IPv4 and its payload is a DHCP reply. |
| PacketTheorems.UdpSumAfterChange | NetworkManager/patches/patch-src_n-dhcp4_src_util_packet-bsd.c:325-333 | The UDP checksum of a payload with one aligned word replaced verifies if and only if the words are congruent modulo 65535. |
| PacketTheorems.ChangedPayloadWordDropped | NetworkManager/patches/patch-src_n-dhcp4_src_util_packet-bsd.c:325-333 | A checksummed datagram with one aligned payload word replaced is still delivered if and only if the words are equal or are 0x0000 and 0xffff. |
| AcdArp.AcdFilterMeaning | NetworkManager/patches/patch-src_n-acd_src_n-acd-os-bsd.c:80-89 | The filter accepts exactly the frames with the ARP ethertype and hardware type Ethernet. |
| AcdArp.CopyArps | NetworkManager/patches/patch-src_n-acd_src_n-acd-os-bsd.c:282-321 | The loop fills the slots, in order, with the first n_out payloads of whole frames, capped at one ARP, with the matching lengths, and leaves the other slots. |
| AcdArp.ReadArp | NetworkManager/patches/patch-src_n-acd_src_n-acd-os-bsd.c:258-323 | The same for a whole read; EAGAIN and EINTR read as none, other errors are returned. |
| AcdArp.ReadInvertsLayout | NetworkManager/patches/patch-src_n-acd_src_n-acd-os-bsd.c:236-323 | For every list of records, laid out with their own header lengths and padding, the payloads read are the list's. |
| AcdArp.StrippedOctets | NetworkManager/patches/patch-src_n-acd_src_n-acd-os-bsd.c:308-313 | A payload is at most 28 octets of the frame, from octet 14 on. |
| AcdArp.ReadOctets | NetworkManager/patches/patch-src_n-acd_src_n-acd-os-bsd.c:282-321 | Of every list of records, slot i holds octets 14, 15, ... of the i-th whole frame, at most 28 of them, its length says how many, and all else is as it was. |
| AcdArp.SendArp | NetworkManager/patches/patch-src_n-acd_src_n-acd-os-bsd.c:337-360 | Writes 42 octets: the broadcast address, the own address, 0x0806 and the ARP; a short write is -EIO. |
| AcdArp.SendReadRoundTrip | NetworkManager/patches/patch-src_n-acd_src_n-acd-os-bsd.c:258-360 | A sent frame that comes back with any padding behind it is read as exactly the ARP it carried, and passes the filter if and only if that starts with hardware type 1. |
| Regions.MergeCovers | emacs21/files/unexmacosx.c:439-454 | The merge of any sorted regions covers exactly the addresses of those runs of touching regions that are not the whole address space. |
| Regions.MergeKeepsIff | emacs21/files/unexmacosx.c:439-454 | It covers what the regions did if and only if no run is the whole address space, or the regions outside of such runs have every address. |
| Regions.DisjointMergeKeepsIff | emacs21/files/unexmacosx.c:439-454 | For disjoint regions, that is so if and only if they leave a hole. |
| Regions.HoleMergesSafely | emacs21/files/unexmacosx.c:431-455 | Any regions that leave a hole are merged without loss, however qsort orders equal addresses. |
| Regions.MergesSafelyIff | emacs21/files/unexmacosx.c:431-455 | In whatever order they were recorded, regions meet the condition of the merge if and only if nothing is lost however they are sorted. |
| Regions.OverlapIsKept | emacs21/files/unexmacosx.c:442-448 | Two overlapping regions that leave no hole are kept as they are. |
| Regions.WholeSpaceVanishes | emacs21/files/unexmacosx.c:442-448 | The two halves of the address space merge into one region of size zero, which covers nothing. |
| Regions.MergeSeparates | emacs21/files/unexmacosx.c:431-455 | Merging sorted regions leaves them sorted, without touching neighbours, and disjoint if they were. |
| Regions.UnexecRegions.Record | emacs21/files/unexmacosx.c:383-395 | Appends ranges until the table is full. |
| Regions.UnexecRegions.MergeSorted | emacs21/files/unexmacosx.c:439-454 | The in-place loop never overwrites an unread entry: the table ends up as the merge of its old contents. |
| Regions.UnexecRegions.Merge | emacs21/files/unexmacosx.c:431-455 | The table becomes the merge of a sorting of what it held, sorted and without touching neighbours, also if it was empty; it covers the same addresses if the condition above holds, and is disjoint if the regions did not overlap. |
| Regions.UnexecRegions.Contains | emacs21/files/unexmacosx.c:996-1007 | One unsigned comparison per region tells exactly whether the pointer lies in a region. |
| PageAlign.AlignPass | emacs26/patches/patch-src_unexmacosx.c:28-51 | The in-place pass puts every region where Settled says: on its page, ending at its own end or its successor's page. |
| PageAlign.SettledIsAligned | emacs26/patches/patch-src_unexmacosx.c:28-51 | Then every start is aligned, no two regions overlap, and none has more file than size, even if several share a page. |
| PageAlign.SettledFrom | emacs26/patches/patch-src_unexmacosx.c:42-50 | A byte cut from a region is taken over by a later one that backs it if it was backed. |
| PageAlign.SettledCovers | emacs26/patches/patch-src_unexmacosx.c:28-51 | The pass covers exactly the old bytes and the padding. |
| PageAlign.SettledBacks | emacs26/patches/patch-src_unexmacosx.c:28-51 | The file backs exactly the bytes that it backed and the padding. |
| Allocator.StepStaysApart | emacs21/files/unexmacosx.c:1009-1051 | A call keeps dumped and system blocks apart, given only what the system and the program promise. |
| Allocator.SystemSeesOnlyItsOwn | emacs21/files/unexmacosx.c:1009-1051 | In every run that starts with them apart, they stay apart, and the system's realloc and free only ever get null or a block that the system allocated and that is still allocated. |
| Allocator.ReallocKeepsBytes | emacs21/files/unexmacosx.c:1018-1039 | A reallocated block, dumped or not, keeps its first min(old, new) bytes. |
| Allocator.LiveAfter | emacs21/files/unexmacosx.c:1009-1051 | Exactly which blocks are allocated behind each call: a freed or moved system block is not, a dumped one still is. |
| Allocator.BlockAfter | emacs21/files/unexmacosx.c:1009-1051 | What is in the block that a call hands out or stores to: behind the kept bytes what the system's memory held. |
| Allocator.OthersUntouched | emacs21/files/unexmacosx.c:1009-1051 | A call leaves every block that it does not name allocated and unchanged. |
| Allocator.UnexecAllocator.Realloc | emacs21/files/unexmacosx.c:1018-1039 | The method takes the step that the runs are made of, and only calls the system with what it may be given. |
| Allocator.UnexecAllocator.Free | emacs21/files/unexmacosx.c:1041-1051 | The same for free, which leaves dumped blocks alone. |
| Allocator.StartDumped | emacs21/files/unexmacosx.c:383-455 | Recording and merging any ranges that the merge does not lose gives a table that tells dumped blocks apart if and only if each lies in a range that the table had room for, and null in none. |
| Allocator.DroppedBlockReachesFree | emacs21/files/unexmacosx.c:387-394 | A block in a dropped range is passed to the system's free, which never allocated it. |
| Allocator.TooManyRanges | emacs21/files/unexmacosx.c:387-394 | 201 ranges, the last of which is dropped. |
| MachO.LastByteHolds | emacs21/files/unexmacosx.c:180-187 | After any sequence of writes, at any offset that one reached, the file holds what the last of them put there. |
| MachO.UnwrittenIsZero | emacs21/files/unexmacosx.c:180-187 | Where no write reached, a gap in the file reads as zero. |
| MachO.LastByteAppend | emacs21/files/unexmacosx.c:180-187 | Later writes take precedence over earlier ones. |
| DumpWrites.InsideLast | emacs21/files/unexmacosx.c:666-716 | A section's output bytes are memory's for data, bss and common, and the input's for the copied sections. |
| DumpWrites.SectionHeadersLast | emacs21/files/unexmacosx.c:666-716 | The rewritten section headers follow one another, whatever section contents are written in between. |
| DumpWrites.RegionsState | emacs21/files/unexmacosx.c:731-757 | The regions add exactly their sizes to delta, one 56-octet command each to the header, and their count to ncmds. |
| DumpWrites.RegionContentLast | emacs21/files/unexmacosx.c:731-757 | Each region's bytes are written where its command says, and are memory's. |
| DumpRun.PreLast | emacs21/files/unexmacosx.c:602-631 | In front of the data segment every write, also one that runs over commands already written, puts the input's own byte where the input has it, and nothing is left out. |
| DumpRun.DataStep | emacs21/files/unexmacosx.c:643-757 | The data segment's step leaves delta as its growth plus the regions' sizes, and header, count, commands and writes accordingly. |
| DumpRest.UnrelocatedLast | emacs21/files/unexmacosx.c:778-834 | Undoing relocations puts back the input's bytes at the places that the entries name, and writes nowhere else. |
| DumpRest.DataHeadsLast | emacs21/files/unexmacosx.c:643-757 | In front of its contents the data segment's step writes its command, the section headers and the regions' commands, contiguously, and nothing else. |
| DumpRest.RestState | emacs21/files/unexmacosx.c:602-895 | In front of every later command: delta is the same, and the commands written are the earlier ones, the regions' and the later ones shifted. |
| DumpRest.RestLast | emacs21/files/unexmacosx.c:602-895 | Behind the header, later commands write only moved contents and undone relocations, and never disturb data or regions otherwise. |
| DumpRest.HeaderLast | emacs21/files/unexmacosx.c:901-952 | From the data segment on, at every point of the run, the header holds the commands written so far, one behind the other. |
| DumpTheorems.HeaderRebuilt | emacs21/files/unexmacosx.c:901-952 | The output starts with the Mach header and then, without gaps, all rewritten commands and one per region, with exact ncmds and sizeofcmds; it ends in front of the text sections that were looked at. |
| DumpTheorems.CommandPlaced | emacs21/files/unexmacosx.c:901-940 | Every input command is in the output, in order, unchanged in front of the data segment and shifted behind it. |
| DumpTheorems.RegionLoads | emacs21/files/unexmacosx.c:728-757 | Loading a region's segment from the output gives memory's bytes. |
| DumpTheorems.MemoryLoads | emacs21/files/unexmacosx.c:728-757 | Every address that the regions cover is loaded, by a segment of the output with contents for all of its memory, with memory's byte. |
| DumpImage.OutputMapsApart | emacs21/files/unexmacosx.c:602-757 | No address lies in two segments of the output, if none lies in two of the input's segments or of the regions, or in one of each. |
| DumpImage.RegionImage | emacs21/files/unexmacosx.c:728-757 | In the image of all segments, every address that the regions cover has memory's byte, if it is in none of the input's segments; regions may overlap. |
| DumpImage.SectionImage | emacs21/files/unexmacosx.c:666-726 | In that image, every address in a section of the data segment has what was dumped there. |
| DumpImage.SegmentImage | emacs21/files/unexmacosx.c:602-631 | In that image, every address in another segment's file contents has the input's byte. |
| DumpImage.DisjointRegionsApart | emacs21/files/unexmacosx.c:431-455 | Merged regions, if disjoint, share no address. |
| Snapshot.RecordedImage | emacs21/files/unexmacosx.c:958-986 | If the regions cover what was recorded, every recorded address has memory's byte in the image of the dump. |
| Snapshot.RecordedMapsApart | emacs21/files/unexmacosx.c:958-986 | And no address lies in two of its segments, if none lies in two of the executable's or of the regions. |
| Snapshot.TakeSnapshot | emacs21/files/unexmacosx.c:958-986 | Ranges are recorded and merged, and the executable is dumped with what that leaves: if the dump succeeds, the image of its output has memory's byte at every recorded address, provided the ranges share none with the executable's segments and are merged without loss. |
| DumpTheorems.SectionLoads | emacs21/files/unexmacosx.c:666-726 | Loading the data segment gives memory's bytes in data, bss and common, the input's in the copied sections, and the input's byte where a relocation was undone. |
| DumpTheorems.SegmentLoads | emacs21/files/unexmacosx.c:602-631 | Every other segment is loaded with the input's bytes at the same addresses; of segments in front of the data this is said of what lies behind the header. |
| DumpTheorems.MovedHeld | emacs21/files/unexmacosx.c:602-631 | Contents behind the data segment are in the output, by the growth further on. |
| DumpFields.DataSegmentFields | emacs21/files/unexmacosx.c:718-726 | The output's data segment has file contents for all its memory, and otherwise the input's fields. |
| DumpFields.DataSectionFields | emacs21/files/unexmacosx.c:662-716 | Each of its section headers has as file offset where its address lies in the segment's contents, flags 0 for bss and common, and otherwise the input's fields. |
| DumpFields.DataSectionHeld | emacs21/files/unexmacosx.c:662-716 | At that offset the output holds the section: memory's bytes for data, bss and common, the input's for the copied ones, and the input's original where a relocation entry was undone. |
| DumpFields.RestoredIff | emacs21/files/unexmacosx.c:796-812 | An offset is restored if and only if it is one of the 2^length octets of some local or external entry in the data segment, of a command behind it. |
| DumpFields.RelocationHeld | emacs21/files/unexmacosx.c:796-812 | Of each such entry the output holds the input's octets, all of them. |
| DumpFields.RegionFields | emacs21/files/unexmacosx.c:731-757 | Region j's segment is a data segment at the region's address with its size in memory and file, read-write, without sections or flags, behind the data segment and the regions before it. |
| DumpFields.OtherCommandFields | emacs21/files/unexmacosx.c:602-895 | Every other command is unchanged in front of the data segment; behind it, its offsets have grown by what the data segment grew and the regions take up, modulo 2^32, those of empty tables excepted, and nothing else has changed. |
| DumpFields.HeaderOctets | emacs21/files/unexmacosx.c:901-952 | Each command starts in the output 28 octets and the sizes of those in front of it from the start, a segment's 56 octets followed by 68 for each section. |
| DumpFields.SecondDataSegmentFails | emacs21/files/unexmacosx.c:651-652 | The dump of any executable with two data segments fails, if the first one grew or there are regions. |
| DumpOffsets.ReferenceTrueIff | emacs21/files/unexmacosx.c:602-882 | Byte n of every symbol, string, relocation, indirect-symbol, hint table and section that lies in another segment than the data's is in the output, and is where the rewritten command says if and only if command and contents stand on the same side of the data segment, or nothing grew. |
| DumpOffsets.ReferencesStayTrue | emacs21/files/unexmacosx.c:761-882 | On the same side, the rewritten command addresses in the output the byte that the input's addressed. |
| DumpOffsets.OutputExtentsApart | emacs21/files/unexmacosx.c:602-757 | No two segments of the output share a file offset if no two of the input do. |
| DumpOffsets.RoomCheckIff | emacs21/files/unexmacosx.c:571-580 | The check for room lets pass only headers that leave all text sections alone if and only if no text section lies lower than all first sections. |
| DumpOffsets.TextByte | emacs21/files/unexmacosx.c:602-631 | A text segment's offsets have the new header's bytes up to its end, and the input's behind it. |
| DumpOffsets.SectionClearIff | emacs21/files/unexmacosx.c:942-947 | In each dump, a section is clear of the header if and only if the header ends in front of it. |
| DumpOffsets.ClearSectionSurvives | emacs21/files/unexmacosx.c:602-631 | A text section that is clear of the header is in the output unchanged. |
| DumpExample.OverlookedSection | emacs21/files/unexmacosx.c:576-578 | A dump that succeeds and writes its header over a text section, the second and lower one: byte 600 changes. |
| DumpOffsets.TextSectionsSurvive | emacs21/files/unexmacosx.c:942-943 | Under that condition the contents of text sections are in the output unchanged. |
| DumpSuccess.UnrelocatedIff | emacs21/files/unexmacosx.c:778-834 | Undoing fails exactly at an entry of a kind that is not handled or whose original bytes the input lacks. |
| DumpSuccess.SectionWritesIff | emacs21/files/unexmacosx.c:662-716 | Writing the data segment's sections fails exactly at an unknown name or at contents that the input lacks. |
| DumpSuccess.RestRunsIff | emacs21/files/unexmacosx.c:901-940 | Behind the data segment a run gets exactly as far as everything that commands copy is there. |
| DumpSuccess.DumpSucceedsIff | emacs21/files/unexmacosx.c:901-952 | The dump of a well-formed executable succeeds if and only if everything it copies is there and the rewritten commands with the regions' end in front of the text. |
| DumpSuccess.CommandsGrow | emacs21/files/unexmacosx.c:731-757 | The output's commands take up as much as the input's and 56 octets per region. |
| DumpSuccess.DumpSucceedsIfRoom | emacs21/files/unexmacosx.c:901-952 | So success can be told from the input and the number of regions. |
| DumpFields.RoomIff | emacs21/files/unexmacosx.c:571-580 | A header is let pass if and only if it ends neither behind a text segment's first section nor behind 0x10000000. |
| DumpFields.SucceedsExactly | emacs21/files/unexmacosx.c:901-952 | The dump succeeds if and only if every octet that sections, segments and entries below 0x80000000 need is in the input, no section or entry is of an unknown kind, only prebound entries stand in front of the data segment, and the commands have room. |
| DumpSuccess.UndoneBelowMiddle | emacs21/files/unexmacosx.c:800-812 | An entry in the data segment can be undone if and only if its address is below 0x80000000 and its original bytes are in the input. |
| DumpExample.SampleDumps | emacs21/files/unexmacosx.c:901-952 | An executable with text contents over the header, data, copied and bss sections, symbols and relocations is well formed, and its dump succeeds. |
| DumpExample.SampleIsOrderly | emacs21/files/unexmacosx.c:571-580 | It also meets those on text sections and extents, and those of the image: its segments and its region share no addresses. |
| DumpExample.RelocationUndone | emacs21/files/unexmacosx.c:800-812 | In its dump a relocated byte is the input's, not memory's. |
| DumpExample.MisplacedStrings | emacs21/files/unexmacosx.c:761-774 | In its dump the string table, which lies in the text, is where it was, while its command says that it is where bss was dumped. |
| Dumper.Dumper.UnexecWrite | emacs21/files/unexmacosx.c:180-187 | Seeking and writing adds one write to the log that the output file is the result of. |
| Dumper.Dumper.UnexecCopy | emacs21/files/unexmacosx.c:191-217 | Copying in pieces of up to 1024 octets, with reads that may return fewer, is one write of the whole, and fails exactly if the input ends early. |
| Dumper.Dumper.ShiftOffsets | emacs21/files/unexmacosx.c:610-617 | The loop adds delta to the offset of every section, as well as to the segment's. |
| Dumper.Dumper.CopySegment | emacs21/files/unexmacosx.c:602-631 | The command is rewritten in place; contents and command are written as DumpSpec says, from the old offset to the new. |
| Dumper.Dumper.WriteSections | emacs21/files/unexmacosx.c:662-716 | The loop places each section and writes contents and header in the specified order; an unknown section fails. |
| Dumper.Dumper.CopyRegions | emacs21/files/unexmacosx.c:731-757 | The loop over the regions is the specified one. |
| Dumper.Dumper.CopyDataSegment | emacs21/files/unexmacosx.c:643-758 | The whole step for the data segment; it fails if delta is not zero. |
| Dumper.Dumper.UndoReloc | emacs21/files/unexmacosx.c:796-812 | One entry: the target offset is summed in unsigned 32-bit words, the source offset with the address as a signed one, which fails if negative. |
| Dumper.Dumper.Unrelocate | emacs21/files/unexmacosx.c:778-834 | The loop over relocation entries undoes those of the data segment and fails on kinds it cannot handle. |
| Dumper.Dumper.CopyDysymtab | emacs21/files/unexmacosx.c:838-863 | Relocations are undone first; then only offsets of tables that are not empty are shifted. |
| Dumper.Dumper.ReadTextSegLowestOffset | emacs21/files/unexmacosx.c:571-580 | The nested loops find the lowest first-section offset of the text segments. |
| Dumper.Dumper.DumpIt | emacs21/files/unexmacosx.c:901-952 | The loop over the load commands, rewritten in place, leaves the file that DumpSpec.Output says, and fails exactly where that does. |
| Dumper.Unexec | emacs21/files/unexmacosx.c:958-986 | A new dumper, run over any input, produces DumpSpec.Output or fails exactly where DumpSpec.DumpIt does. |
| ShellQuote.BodyReadsBack | emacs28/patches/patch-lib-src_etags.c:269-284 | Inside quotes, the shell reads the escaped text back, apostrophes included. |
| ShellQuote.QuoteReadsBack | emacs28/patches/patch-lib-src_etags.c:241-288 | In front of any rest of a line the shell reads a quoted string as that string, as part of the current word. |
| ShellQuote.QuoteIsOneWord | emacs28/patches/patch-lib-src_etags.c:241-288 | A quoted string is one word equal to the string, for every NUL-free string. |
| ShellQuote.EscapeShellArgString | emacs28/patches/patch-lib-src_etags.c:249-288 | The writer fills its buffer with the quoted string and a terminator, and stores to every index exactly once. |
| ShellQuote.BuildCommand | emacs28/patches/patch-lib-src_etags.c:139-143 | The buffer length is exactly the line's plus the terminator, so nothing is cut off. |
| ShellQuote.CommandLineTokens | emacs28/patches/patch-lib-src_etags.c:139-143 | The line is read as the decompressor's command, the real name as one word, a redirection and the temporary name as one word. |
| OsTimer.MillisNeverShort | NetworkManager/patches/patch-src_n-acd_src_n-acd-os-bsd.c:551-560 | Rounding up to milliseconds is never short if and only if the 64-bit addition does not wrap, and then less than a millisecond long. |
| OsTimer.NeverEarlyIff | NetworkManager/patches/patch-src_n-acd_src_n-acd-os-bsd.c:551-560 | A timer that counts milliseconds is armed for its deadline or later if and only if the addition does not wrap. |
| OsTimer.MillisArmingIff | NetworkManager/patches/patch-src_n-acd_src_n-acd-os-bsd.c:514-567 | The same for every arming in a run. |
| OsTimer.FiringTime | NetworkManager/patches/patch-src_n-acd_src_n-acd-os-bsd.c:528-562 | An armed timer goes off at or after its deadline, less than a millisecond late if that is ahead; a past deadline still arms it. |
| OsTimer.NanosecondsExact | NetworkManager/patches/patch-src_n-acd_src_n-acd-os-bsd.c:528-562 | Counted in nanoseconds, a timer goes off exactly at its deadline, or one nanosecond from now if that has passed. |
| OsTimer.LongIntervalMisread | NetworkManager/patches/patch-src_n-acd_src_n-acd-os-bsd.c:528-562 | An interval of 2^63 nanoseconds or more is negative to the kernel. |
| OsTimer.ClockRuns | NetworkManager/patches/patch-src_n-acd_src_n-acd-os-bsd.c:569-585 | In a run, time passes only as long as events wait. |
| OsTimer.ReadReportsIff | NetworkManager/patches/patch-src_n-acd_src_n-acd-os-bsd.c:569-585 | In every run, a read reports a timeout if and only if some arming is still in force and its time has come. |
| OsTimer.ReportedOnce | NetworkManager/patches/patch-src_n-acd_src_n-acd-os-bsd.c:569-585 | Two reads never report the same arming: the later one's was made after the earlier read. |
| OsTimer.NoEarlyTimeout | NetworkManager/patches/patch-src_n-acd_src_n-acd-os-bsd.c:514-585 | In every run clear of 64-bit overflow, a reported timeout belongs to an arming whose deadline has passed. |
| OsTimer.WrappedIntervalFiresEarly | NetworkManager/patches/patch-src_n-dhcp4_src_n-dhcp4-socket-bsd.c:616-624 | At the top of the 64-bit range the milliseconds wrap and the timer does go off early. |
| OsTimer.KqueueTimer.TimerSet | NetworkManager/patches/patch-src_n-acd_src_n-acd-os-bsd.c:514-567 | The function takes the step that the runs are made of: zero disarms, all else arms, with the interval cast to a signed word. |
| OsTimer.KqueueTimer.TimerRead | NetworkManager/patches/patch-src_n-acd_src_n-acd-os-bsd.c:569-585 | The draining loop reports and clears a timer that has gone off, and changes nothing else, however many events a round returns. |
| CConnection.StepKeepsInv | NetworkManager/patches/patch-src_n-dhcp4_src_n-dhcp4-c-connection.c:70-168 | Every call keeps the connection's descriptors exactly those that are open and watched beyond what was there before. |
| CConnection.RunKeepsWatchedSet | NetworkManager/patches/patch-src_n-dhcp4_src_n-dhcp4-c-connection.c:70-168 | After every run of listen, connect, drain, expiry and close, with any failures, the poller watches exactly what the connection holds open, nothing leaked; after a close there is nothing. |
| CConnection.CallOutcome | NetworkManager/patches/patch-src_n-dhcp4_src_n-dhcp4-c-connection.c:70-168 | What phase and which descriptors each call leaves, on success and on failure. |
| CConnection.DrainGoesOn | NetworkManager/patches/patch-src_n-dhcp4_src_n-dhcp4-c-connection.c:151-160 | Dispatching the timer any number of times up to the timeout, or without one, changes nothing. |
| CConnection.DrainsUntilTimeout | NetworkManager/patches/patch-src_n-dhcp4_src_n-dhcp4-c-connection.c:70-160 | After listening and connecting, the packet socket stays open and watched over all dispatches up to the timeout, and the first one behind it gives it up, while the UDP socket stays. |
| CConnection.DrainedIsWatchedIff | NetworkManager/patches/patch-src_n-dhcp4_src_n-dhcp4-c-connection.c:160-168 | In every run, what the end of draining unregisters is watched if and only if the connection holds a packet socket. |
| CConnection.FailedListenKeepsDraining | NetworkManager/patches/patch-src_n-dhcp4_src_n-dhcp4-c-connection.c:70-107 | A failed listen while draining leaves that phase without a packet socket. |
| CConnection.Connection.Listen | NetworkManager/patches/patch-src_n-dhcp4_src_n-dhcp4-c-connection.c:70-107 | The function takes its step, unregistering before closing. |
| CConnection.Connection.Connect | NetworkManager/patches/patch-src_n-dhcp4_src_n-dhcp4-c-connection.c:106-130 | The same for connect, whose failed shutdown takes the new descriptor off the poller again. |
| CConnection.Connection.Close | NetworkManager/patches/patch-src_n-dhcp4_src_n-dhcp4-c-connection.c:131-150 | The same for close. |
| CConnection.Connection.DispatchTimer | NetworkManager/patches/patch-src_n-dhcp4_src_n-dhcp4-c-connection.c:151-160 | The same for the drain timeout. |
| CConnection.Connection.FinishDrain | NetworkManager/patches/patch-src_n-dhcp4_src_n-dhcp4-c-connection.c:160-168 | The same for a drained packet socket; the asserted result is zero in every state, as both systems' wrappers make nothing of a failure. |

## Left out

Packet path:

- The DHCP structures' sizes and offsets are parameters of the filters; the op, port and cookie constants are those of RFC 2131. The declarations are not part of this model.
- The body of `packet_internet_checksum` is not in the patch; it is modelled after section 1 of RFC 1071, adding 16-bit words.
- The layout of `struct bpf_hdr` and the word alignment differ between systems and are parameters. Sizes are those of a 64-bit `size_t`; read buffers are shorter than 2^32, as BIOCGBLEN gives a 32-bit length.
- Opening and configuring BPF devices and sockets, interface addresses, control messages and errno values beyond those named; a device is the buffer it returned, and whether the kernel marked checksums as not ready is a parameter.
- The filters for UDP sockets, the server's sockets and incoming-message parsing: they depend on code that is not shown.

Dumper and allocator:

- Load commands and relocation entries are taken as already parsed, with command sizes that match their contents; how structures are spelled in octets is a parameter, of which only the sizes of the Mach header, segments and sections are fixed. Section and segment names are those the dumper compares with.
- Bytes between sections of the data segment and behind the last one are written by nobody; nothing is said of them.
- The offset of the reference tables (tocoff, modtaboff, extrefsymoff) in the dynamic symbol table command is not adjusted by the source; it is part of what the model carries along unchanged.
- A relocation in front of the data segment's command follows a null pointer in the source; the model counts it as a failure.
- Offsets into the header under construction are unbounded in the model; those in load commands and delta wrap at 32 bits.
- A failed dump ends the program in the source; the methods return false, and say nothing of the partly written file.
- Building the region list from the Mach kernel, printing, opening files, `read_load_commands` beyond the text offset.
- References into the data segment's own contents: what is there in the output is memory's, so no statement is made.
- qsort is an insertion sort here; only that the result is a sorted permutation is used.
- The system allocator always succeeds and hands out fresh blocks; sizes are below 2^31. The phase before the dump, in which all calls go to the zone, is not modelled.
- The merge behind the aligning pass of emacs26 is only partly shown in the patch.
- PageAlign.AlignPass: masks with `pagesize - 1` are remainders, for any page size and without 64-bit wrap-around.

Quoting:

- The shell's lexer covers quoting with apostrophes and backslashes, blanks and `>`; for other special characters outside quotes it gives no reading, so the decompressor's own command is required to have one.
- Overflow of the `int` that counts the space is not modelled. The DOS variant of the command line, `clean_matched_file_tag` and `do_move_file` are left out.

OS seam:

- The kernel side of kqueue is one pending one-shot timer that a new arming replaces, and the poller a set of descriptors. Timer and clock calls do not fail. What a kernel makes of a negative interval is a parameter.
- Descriptors that a failed listen or connect got from the system are closed by a cleanup attribute outside the shown lines; the model closes them. Closing does not by itself take a descriptor off the poller in the model.
- What the drain dispatch sets the timeout to lies behind the shown lines and is a parameter.
- The other patches of the repository: header spelling, prototypes, build files and machine descriptions.
