/**
 * Receiving and sending, octet by octet: which packets are delivered and what of them, what becomes of a
 * corrupt IP header, and the frame that goes out.
 */
module PacketOctets {
  import opened Bytes
  import opened InetChecksum
  import opened UdpDatagram
  import opened BpfFraming
  import opened PacketBsd
  import opened BpfMachine
  import opened ClientFilter
  import opened PacketTheorems

  // ---- Which packets are delivered ----

  /** Two octets, the more significant one first. */
  function Word(p: seq<byte>, i: nat): nat
    requires i + 2 <= |p|
  {
    p[i] as int * 0x100 + p[i + 1]
  }

  /** The IP header's length in octets. */
  function Ihl(p: seq<byte>): nat
    requires p != []
  {
    p[0] % 16 * 4
  }

  /** An IPv4 packet with UDP in it, whose lengths are consistent. */
  predicate Shaped(p: seq<byte>) {
    && 20 <= |p| && p[0] / 16 == 4 && p[9] == 17
    && 20 <= Ihl(p) && Ihl(p) + 8 <= Word(p, 2) <= |p|
    && 8 <= Word(p, Ihl(p) + 4) && Ihl(p) + Word(p, Ihl(p) + 4) <= Word(p, 2)
  }

  /** The octets of the IP header add up. */
  predicate HeaderAddsUp(p: seq<byte>)
    requires Shaped(p)
  {
    PositiveMultiple(OctetSum(p[..Ihl(p)]))
  }

  /** Addresses, protocol, UDP length and the datagram itself. */
  function DatagramTotal(p: seq<byte>, from: nat, len: nat): nat
    requires 20 <= |p| && from + len <= |p|
  {
    OctetSum(p[12..20]) + 17 + len + OctetSum(p[from..from + len])
  }

  /** They add up, unless its checksum field is zero. */
  predicate DatagramAddsUp(p: seq<byte>)
    requires Shaped(p)
  {
    Word(p, Ihl(p) + 6) == 0 || PositiveMultiple(DatagramTotal(p, Ihl(p), Word(p, Ihl(p) + 4)))
  }

  predicate Datagram(p: seq<byte>) {
    Shaped(p) && HeaderAddsUp(p) && DatagramAddsUp(p)
  }

  lemma SplitSum(p: seq<byte>, from: nat, mid: nat, to: nat)
    requires from <= mid <= to <= |p| && (mid - from) % 2 == 0
    ensures OctetSum(p[from..to]) == OctetSum(p[from..mid]) + OctetSum(p[mid..to])
  {
    assert p[from..to] == p[from..mid] + p[mid..to];
    OctetSumAppend(p[from..mid], p[mid..to]);
  }

  lemma OneWord(p: seq<byte>, i: nat)
    requires i + 2 <= |p|
    ensures OctetSum(p[i..i + 2]) == Be16(p, i)
  {
    OctetSumOfWord(p[i..i + 2]);
  }

  lemma UdpHeaderSum(p: seq<byte>, from: nat, to: nat)
    requires from + 8 <= to <= |p|
    ensures OctetSum(p[from..to])
         == Be16(p, from) + Be16(p, from + 2) + Be16(p, from + 4) + Be16(p, from + 6) + OctetSum(p[from + 8..to])
  {
    SplitSum(p, from, from + 2, to);
    SplitSum(p, from + 2, from + 4, to);
    SplitSum(p, from + 4, from + 6, to);
    SplitSum(p, from + 6, from + 8, to);
    OneWord(p, from);
    OneWord(p, from + 2);
    OneWord(p, from + 4);
    OneWord(p, from + 6);
  }

  lemma ShapedIff(p: seq<byte>)
    ensures UdpShaped(p) <==> Shaped(p)
    ensures Shaped(p) ==> HdrLen(p) == Ihl(p) && UdpLen(p) == Word(p, Ihl(p) + 4) && UdpSum(p) == Word(p, Ihl(p) + 6)
  {
  }

  lemma UdpChecksumIff(src: seq<byte>, dst: seq<byte>, sport: u16, dport: u16, data: seq<byte>, check: u16, len: u16,
                       total: nat)
    requires |src| == 4 && |dst| == 4 && len == 8 + |data|
    requires total == OctetSum(src) + OctetSum(dst) + 17 + len + len + sport + dport + check + OctetSum(data)
    ensures UdpChecksum(src, dst, sport, dport, data, check) == 0 <==> PositiveMultiple(total)
  {
    var h := PseudoHeader(src, dst, sport, dport, |data|, check);
    UdpSumOfParts(src, dst, sport, dport, data, check, len, h);
    VerifiesBySum(h + data, total);
  }

  lemma DatagramSum(p: seq<byte>, from: nat, len: nat)
    requires 20 <= from && from + len <= |p| && 8 <= len
    ensures DatagramTotal(p, from, len)
         == OctetSum(p[12..16]) + OctetSum(p[16..20]) + 17 + len + Be16(p, from + 4) + Be16(p, from)
            + Be16(p, from + 2) + Be16(p, from + 6) + OctetSum(p[from + 8..from + len])
  {
    SplitSum(p, 12, 16, 20);
    UdpHeaderSum(p, from, from + len);
  }

  lemma VerifiesBy(p: seq<byte>, src: seq<byte>, dst: seq<byte>, sport: u16, dport: u16, data: seq<byte>, check: u16,
                   ok: bool)
    requires UdpShaped(p) && src == p[12..16] && dst == p[16..20] && sport == SrcPort(p) && dport == DstPort(p)
    requires data == Payload(p) && check == UdpSum(p)
    requires UdpChecksum(src, dst, sport, dport, data, check) == 0 <==> ok
    ensures UdpSumVerifies(p) <==> check == 0 || ok
  {
  }

  lemma UdpVerifiesFor(p: seq<byte>, src: seq<byte>, dst: seq<byte>, sport: u16, dport: u16, data: seq<byte>,
                       check: u16, from: nat, len: u16)
    requires UdpShaped(p) && src == p[12..16] && dst == p[16..20] && sport == SrcPort(p) && dport == DstPort(p)
    requires data == Payload(p) && check == UdpSum(p) && from == HdrLen(p) && len == UdpLen(p)
    ensures UdpSumVerifies(p) <==> check == 0 || PositiveMultiple(DatagramTotal(p, from, len))
  {
    DatagramSum(p, from, len);
    UdpChecksumIff(src, dst, sport, dport, data, check, len, DatagramTotal(p, from, len));
    VerifiesBy(p, src, dst, sport, dport, data, check, PositiveMultiple(DatagramTotal(p, from, len)));
  }

  lemma UdpVerifiesIff(p: seq<byte>)
    requires UdpShaped(p) && Shaped(p)
    ensures UdpSumVerifies(p) <==> DatagramAddsUp(p)
  {
    ShapedIff(p);
    UdpVerifiesFor(p, p[12..16], p[16..20], SrcPort(p), DstPort(p), Payload(p), UdpSum(p), HdrLen(p), UdpLen(p));
  }

  /** The receivers' checks, in terms of the packet's octets. */
  lemma DeliverableIff(p: seq<byte>)
    ensures Deliverable(p, true) <==> Datagram(p)
  {
    ShapedIff(p);
    if Shaped(p) {
      ChecksumCompletes(p[..Ihl(p)]);
      UdpVerifiesIff(p);
    }
  }

  /** The datagram's data and sender. */
  function Carried(p: seq<byte>): Delivery
    requires Shaped(p)
  {
    var from := Ihl(p);
    Delivered(p[from + 8..from + Word(p, from + 4)], Endpoint(p[12..16], Word(p, from)))
  }

  /** What the BSD parser delivers: a datagram's data, as much as the buffer takes. */
  lemma BsdDeliveryOctets(p: seq<byte>, nBuf: nat)
    ensures BsdDelivery(p, nBuf)
         == if Datagram(p) then Delivered(Carried(p).payload[..Min(|Carried(p).payload|, nBuf)], Carried(p).src)
            else Nothing
  {
    DeliverableIff(p);
    ShapedIff(p);
  }

  lemma FragmentIff(p: seq<byte>)
    requires 20 <= |p|
    ensures Fragment(p) <==> p[6] % 64 != 0 || p[7] != 0
  {
    ModUnique(Be16(p, 6), 0x4000, p[6] / 64, p[6] as int % 64 * 0x100 + p[7]);
  }

  /** What the Linux receiver delivers: neither fragments nor what the buffer cannot take. */
  lemma LinuxDeliveryOctets(p: seq<byte>, nBuf: nat)
    ensures LinuxDelivery(p, nBuf)
         == if Datagram(p) && p[6] % 64 == 0 && p[7] == 0 && Word(p, 2) <= Ihl(p) + 8 + nBuf then Carried(p)
            else Nothing
  {
    DeliverableIff(p);
    ShapedIff(p);
    if Shaped(p) {
      FragmentIff(p);
    }
  }

  // ---- A corrupt IP header ----

  lemma ChangedSum(s: seq<byte>, k: nat, w: u16)
    requires k % 2 == 0 && k + 2 <= |s|
    ensures OctetSum(WithWord(s, k, w)) == OctetSum(s) - Be16(s, k) + w
  {
    PlainSumIsOctets(s);
    PlainSumIsOctets(WithWord(s, k, w));
    SumWithWord(s, k, w);
  }

  lemma SliceWithWord(p: seq<byte>, k: nat, w: u16, from: nat, to: nat)
    requires k + 2 <= |p| && from <= to <= |p|
    ensures k + 2 <= from || to <= k ==> WithWord(p, k, w)[from..to] == p[from..to]
    ensures from <= k && k + 2 <= to ==>
      WithWord(p, k, w)[from..to] == WithWord(p[from..to], k - from, w) && Be16(p[from..to], k - from) == Be16(p, k)
  {
  }

  lemma MultipleAfterChange(n: nat, m: nat, w: u16, was: u16)
    requires PositiveMultiple(n) && m == n - was + w && m > 0
    ensures PositiveMultiple(m) <==> SameModuloOnes(w, was)
  {
    MultiplesDiffer(n, w, was);
  }

  lemma FirstOctetCounts(s: seq<byte>)
    requires 2 <= |s| && 0 < s[0]
    ensures OctetSum(s) > 0
  {
    ChangedSum(s, 0, 0);
  }

  lemma ChangedHeader(p: seq<byte>, k: nat, w: u16, p': seq<byte>)
    requires Shaped(p) && Shaped(p') && HeaderAddsUp(p) && k % 2 == 0 && k + 2 <= Ihl(p)
    requires p' == WithWord(p, k, w) && Ihl(p') == Ihl(p)
    ensures HeaderAddsUp(p') <==> SameModuloOnes(w, Be16(p, k))
  {
    SliceWithWord(p, k, w, 0, Ihl(p));
    ChangedSum(p[..Ihl(p)], k, w);
    FirstOctetCounts(p'[..Ihl(p)]);
    MultipleAfterChange(OctetSum(p[..Ihl(p)]), OctetSum(p'[..Ihl(p)]), w, Be16(p, k));
  }

  lemma ChangedAddresses(p: seq<byte>, k: nat, w: u16, p': seq<byte>)
    requires 20 <= |p| && k % 2 == 0 && k + 2 <= |p| && p' == WithWord(p, k, w)
    ensures OctetSum(p'[12..20]) == OctetSum(p[12..20]) - if 12 <= k < 20 then Be16(p, k) - w else 0
  {
    SliceWithWord(p, k, w, 12, 20);
    if 12 <= k < 20 {
      ChangedSum(p[12..20], k - 12, w);
    }
  }

  lemma BehindHeader(p: seq<byte>, k: nat, w: u16, from: nat, p': seq<byte>)
    requires k + 2 <= from <= |p| && p' == WithWord(p, k, w)
    ensures |p'| == |p| && forall i :: from <= i < |p| ==> p'[i] == p[i]
  {
  }

  lemma TotalAfterChange(p: seq<byte>, k: nat, w: u16, p': seq<byte>, from: nat, len: nat)
    requires 20 <= from && from + len <= |p| && k % 2 == 0 && k + 2 <= from && p' == WithWord(p, k, w)
    requires SameModuloOnes(w, Be16(p, k)) && PositiveMultiple(DatagramTotal(p, from, len))
    ensures PositiveMultiple(DatagramTotal(p', from, len))
  {
    BehindHeader(p, k, w, from, p');
    assert p'[from..from + len] == p[from..from + len];
    ChangedAddresses(p, k, w, p');
    MultiplesDiffer(DatagramTotal(p, from, len), w, Be16(p, k));
  }

  lemma ChangedHeaderKeepsDatagram(p: seq<byte>, k: nat, w: u16, p': seq<byte>)
    requires Shaped(p) && Shaped(p') && DatagramAddsUp(p) && k % 2 == 0 && k + 2 <= Ihl(p)
    requires p' == WithWord(p, k, w) && Ihl(p') == Ihl(p) && SameModuloOnes(w, Be16(p, k))
    ensures DatagramAddsUp(p')
  {
    BehindHeader(p, k, w, Ihl(p), p');
    if Word(p, Ihl(p) + 6) != 0 {
      TotalAfterChange(p, k, w, p', Ihl(p), Word(p, Ihl(p) + 4));
    }
  }

  /**
   * A deliverable packet with one aligned word of its IP header replaced, its length aside, is delivered if
   * and only if it still is of the right shape and the words are congruent modulo 65535.
   */
  lemma ChangedHeaderIff(p: seq<byte>, k: nat, w: u16, p': seq<byte>)
    requires Deliverable(p, true) && k % 2 == 0 && k + 2 <= Ihl(p)
    requires p' == WithWord(p, k, w) && Ihl(p') == Ihl(p)
    ensures Deliverable(p', true) <==> Shaped(p') && SameModuloOnes(w, Be16(p, k))
  {
    DeliverableIff(p);
    DeliverableIff(p');
    if Shaped(p') {
      ChangedHeader(p, k, w, p');
      if SameModuloOnes(w, Be16(p, k)) {
        ChangedHeaderKeepsDatagram(p, k, w, p');
      }
    }
  }

  /** So neither receiver hands on a packet whose header was damaged in one word. */
  lemma CorruptHeaderDropped(p: seq<byte>, k: nat, w: u16, p': seq<byte>, nBuf: nat)
    requires Deliverable(p, true) && k % 2 == 0 && k + 2 <= Ihl(p)
    requires p' == WithWord(p, k, w) && Ihl(p') == Ihl(p) && !SameModuloOnes(w, Be16(p, k))
    ensures BsdDelivery(p', nBuf) == Nothing && LinuxDelivery(p', nBuf) == Nothing
  {
    ChangedHeaderIff(p, k, w, p');
  }

  /** A packet of 32 octets whose IP header adds up whether it is read as 20 octets long or as 24. */
  predicate TwoFaced(p: seq<byte>, first: byte) {
    && |p| == 32 && p[0] == first && p[1] == 0 && Word(p, 2) == 32 && Word(p, 4) == 0 && Word(p, 6) == 0
    && p[8] == 64 && p[9] == 17 && Word(p, 10) == 0x7ace
    && Word(p, 12) == 0 && Word(p, 14) == 0 && Word(p, 16) == 0 && Word(p, 18) == 0
    && Word(p, 20) == 0xfeff && Word(p, 22) == 0 && Word(p, 24) == 12 && Word(p, 26) == 0
    && Word(p, 28) == 8 && Word(p, 30) == 0
  }

  lemma EightOctets(p: seq<byte>, to: nat)
    requires 16 <= to <= |p|
    ensures OctetSum(p[..to]) == Word(p, 0) + Word(p, 2) + Word(p, 4) + Word(p, 6)
                                 + Word(p, 8) + Word(p, 10) + Word(p, 12) + Word(p, 14) + OctetSum(p[16..to])
  {
    assert p[0..to] == p[..to];
    UdpHeaderSum(p, 0, to);
    UdpHeaderSum(p, 8, to);
  }

  lemma TwoFacedSums(p: seq<byte>, first: byte)
    requires TwoFaced(p, first)
    ensures OctetSum(p[..20]) == first as int * 0x100 + 0xbaff && OctetSum(p[..24]) == first as int * 0x100 + 0x1_b9fe
  {
    EightOctets(p, 20);
    SplitSum(p, 16, 18, 20);
    OneWord(p, 16);
    OneWord(p, 18);
    EightOctets(p, 24);
    UdpHeaderSum(p, 16, 24);
    assert p[24..24] == [];
  }

  lemma TwoFacedShaped(p: seq<byte>, first: byte)
    requires TwoFaced(p, first) && first in {0x45, 0x46}
    ensures Shaped(p) && Ihl(p) == (if first == 0x45 then 20 else 24) && Word(p, Ihl(p) + 6) == 0
    ensures Word(p, Ihl(p) + 4) == if first == 0x45 then 12 else 8
  {
  }

  lemma TwoFacedDelivered(p: seq<byte>, first: byte)
    requires TwoFaced(p, first) && first in {0x45, 0x46}
    ensures Deliverable(p, true) && |Payload(p)| == if first == 0x45 then 4 else 0
  {
    TwoFacedShaped(p, first);
    TwoFacedSums(p, first);
    DeliverableIff(p);
    ShapedIff(p);
  }

  lemma OtherFace(p: seq<byte>)
    requires TwoFaced(p, 0x45)
    ensures TwoFaced(WithWord(p, 0, 0x4600), 0x46)
  {
    var p' := WithWord(p, 0, 0x4600);
    assert p'[0] == 0x46 && p'[1] == 0;
    assert forall i :: 2 <= i < 32 ==> p'[i] == p[i];
  }

  function TwoFacedOctet(i: nat): byte {
    match i
    case 0 => 0x45 case 3 => 32 case 8 => 64 case 9 => 17 case 10 => 0x7a case 11 => 0xce
    case 20 => 0xfe case 21 => 0xff case 25 => 12 case 29 => 8
    case _ => 0
  }

  /**
   * Nothing like that holds of a word that changes the header's length: then other octets are summed, and
   * this packet is delivered with either length, as different datagrams.
   */
  lemma HeaderLengthMatters() returns (p: seq<byte>)
    ensures 2 <= |p| && Be16(p, 0) == 0x4500 && !SameModuloOnes(0x4600, 0x4500)
    ensures Deliverable(p, true) && Deliverable(WithWord(p, 0, 0x4600), true)
    ensures |Payload(p)| == 4 && |Payload(WithWord(p, 0, 0x4600))| == 0
  {
    p := seq(32, i requires 0 <= i => TwoFacedOctet(i));
    OtherFace(p);
    TwoFacedDelivered(p, 0x45);
    TwoFacedDelivered(WithWord(p, 0, 0x4600), 0x46);
  }

  // ---- What is sent ----

  lemma SentIpHeader(src: seq<byte>, dst: seq<byte>, dscp: byte, size: nat, sum: u16, ip: seq<byte>)
    requires |src| == 4 && |dst| == 4 && ip == IpHeaderWith(src, dst, dscp, size, sum)
    ensures |ip| == 20 && ip[0] == 0x45 && ip[1] == dscp * 4 % 0x100 && Word(ip, 2) == (28 + size) % 0x1_0000
    ensures ip[4..10] == [0, 0, 0x40, 0, 64, 17] && Word(ip, 10) == sum
    ensures ip[12..16] == src && ip[16..20] == dst
  {
  }

  lemma SentUdpHeader(src: Endpoint, dst: Endpoint, payload: seq<byte>, udp: seq<byte>)
    requires udp == UdpHeader(src, dst, payload)
    ensures |udp| == 8 && Word(udp, 0) == src.port && Word(udp, 2) == dst.port
    ensures Word(udp, 4) == (8 + |payload|) % 0x1_0000 && Word(udp, 6) != 0
  {
  }

  lemma Behind20(ip: seq<byte>, udp: seq<byte>, payload: seq<byte>, p: seq<byte>)
    requires |ip| == 20 && |udp| == 8 && p == ip + udp + payload
    ensures |p| == 28 + |payload| && p[..20] == ip && p[28..] == payload
    ensures forall i :: 0 <= i < 20 ==> p[i] == ip[i]
    ensures forall i :: 0 <= i < 8 ==> p[20 + i] == udp[i]
    ensures forall a, b :: 0 <= a <= b <= 20 ==> p[a..b] == ip[a..b]
  {
  }

  /** Every octet of a sent packet but its checksums, which add up; lengths are cut to 16 bits. */
  lemma SentOctets(src: Endpoint, dst: Endpoint, dscp: byte, payload: seq<byte>, p: seq<byte>)
    requires |src.addr| == 4 && |dst.addr| == 4 && p == Packet(src, dst, dscp, payload)
    ensures |p| == 28 + |payload| && p[0] == 0x45 && p[1] == dscp * 4 % 0x100
    ensures Word(p, 2) == (28 + |payload|) % 0x1_0000 && p[4..10] == [0, 0, 0x40, 0, 64, 17]
    ensures p[12..16] == src.addr && p[16..20] == dst.addr
    ensures Word(p, 20) == src.port && Word(p, 22) == dst.port && Word(p, 24) == (8 + |payload|) % 0x1_0000
    ensures Word(p, 26) != 0 && p[28..] == payload
  {
    var ip, udp := IpHeader(src.addr, dst.addr, dscp, |payload|), UdpHeader(src, dst, payload);
    SentIpHeader(src.addr, dst.addr, dscp, |payload|,
                 Checksum(IpHeaderWith(src.addr, dst.addr, dscp, |payload|, 0)), ip);
    SentUdpHeader(src, dst, payload, udp);
    Behind20(ip, udp, payload, p);
    assert Word(p, 20) == Word(udp, 0) && Word(p, 22) == Word(udp, 2);
    assert Word(p, 20 + 4) == Word(udp, 4) && Word(p, 20 + 6) == Word(udp, 6);
  }

  /** The checksums add up, unless the length of the datagram was cut. */
  lemma SentAddsUp(src: Endpoint, dst: Endpoint, dscp: byte, payload: seq<byte>, p: seq<byte>)
    requires |src.addr| == 4 && |dst.addr| == 4 && p == Packet(src, dst, dscp, payload)
    ensures |p| == 28 + |payload| && PositiveMultiple(OctetSum(p[..20])) && (|payload| <= 65507 ==> Datagram(p))
  {
    var ip := IpHeader(src.addr, dst.addr, dscp, |payload|);
    SentOctets(src, dst, dscp, payload, p);
    assert p[..20] == ip;
    SentIpSumVerifies(src.addr, dst.addr, dscp, |payload|);
    ChecksumCompletes(ip);
    if |payload| <= 65507 {
      SentPacketDeliverable(src, dst, dscp, payload, p);
      DeliverableIff(p);
    }
  }

  /** A BOOTREPLY with the DHCP cookie where the message has them. */
  predicate Reply(c: Dhcp, payload: seq<byte>) {
    && c.opAt < |payload| && payload[c.opAt] == 2
    && c.magicAt + 4 <= |payload| && payload[c.magicAt..c.magicAt + 4] == [0x63, 0x82, 0x53, 0x63]
  }

  lemma CookieOctets(p: seq<byte>, i: nat)
    requires i + 4 <= |p|
    ensures Be32(p, i) == 0x6382_5363 <==> p[i..i + 4] == [0x63, 0x82, 0x53, 0x63]
  {
  }

  lemma ReplyIff(c: Dhcp, p: seq<byte>, payload: seq<byte>)
    requires 28 <= |p| && p[28..] == payload
    ensures ReplyAt(c, p, 28) <==> Reply(c, payload)
  {
    ReplyInSuffix(c, p, 28);
    if c.magicAt + 4 <= |payload| {
      CookieOctets(payload, c.magicAt);
    }
  }

  lemma SentIsReply(c: Dhcp, p: seq<byte>, payload: seq<byte>)
    requires |p| == 28 + |payload| && p[28..] == payload && p[0] == 0x45
    requires p[4..10] == [0, 0, 0x40, 0, 64, 17]
    ensures IsDhcpReply(c, p) <==> Word(p, 22) == 68 && c.messageSize <= |payload| && Reply(c, payload)
  {
    assert p[6] == p[4..10][2] && p[7] == p[4..10][3] && p[9] == p[4..10][5];
    ReplyIff(c, p, payload);
  }

  /** Of all sent frames, the client's filter passes those to port 68 that carry a reply of sufficient length. */
  lemma SentFrameFiltered(c: Dhcp, f: seq<byte>, to: seq<byte>, from: seq<byte>, src: Endpoint, dst: Endpoint,
                          dscp: byte, payload: seq<byte>, p: seq<byte>)
    requires |src.addr| == 4 && |dst.addr| == 4 && p == Packet(src, dst, dscp, payload) && |f| < TWO32
    requires IsFrame(f, to, from, p)
    ensures Verdict(BsdFilter(c), f)
         == if dst.port == 68 && c.messageSize <= |payload| && Reply(c, payload) then 65535 else 0
  {
    SentOctets(src, dst, dscp, payload, p);
    SentIsReply(c, p, payload);
    BsdFilterMeaning(c, f);
  }

  /** Captured whole, a sent frame is parsed back to its payload and sender if and only if the length fits. */
  lemma SentFrameParsed(abi: Abi, rbuf: seq<byte>, hdrlen: nat, f: seq<byte>, to: seq<byte>, from: seq<byte>,
                        src: Endpoint, dst: Endpoint, dscp: byte, payload: seq<byte>, nBuf: nat)
    requires |rbuf| < TWO32 && |src.addr| == 4 && |dst.addr| == 4 && |payload| <= nBuf
    requires IsFrame(f, to, from, Packet(src, dst, dscp, payload)) && RecordAt(abi, rbuf, 0, Record(hdrlen, f, |f|))
    ensures FirstUsable(abi, rbuf, 0, nBuf) == Delivered(payload, src) <==> |payload| <= 65507
  {
    assert f == f[..14] + f[14..];
    SendParseRoundTrip(abi, rbuf, hdrlen, f[..14], src, dst, dscp, payload, f, nBuf);
  }
}
