/**
 * What the BSD packet path keeps of the Linux one, and what its two ends keep of each other: the
 * framing is inverted, the receivers agree, a sent datagram is parsed back, a changed one is dropped.
 */
module PacketTheorems {
  import opened Bytes
  import opened Protocol
  import opened InetChecksum
  import opened UdpDatagram
  import opened BpfFraming
  import opened BpfLayout
  import opened PacketBsd
  import PacketLinux
  import opened BpfMachine
  import opened ClientFilter

  const MAX_PAYLOAD := 65507           // 65535 less the IP and UDP headers

  // ---- Framing ----

  /** What a record delivers on its own. */
  function Delivery1(r: Record): Delivery {
    if |r.frame| == r.datalen && ETHER_HDR <= |r.frame| && Deliverable(r.frame[ETHER_HDR..], true)
    then Delivered(Payload(r.frame[ETHER_HDR..]), Source(r.frame[ETHER_HDR..]))
    else Nothing
  }

  function FirstDelivery(records: seq<Record>, nBuf: nat): Delivery {
    if records == [] then Nothing
    else if Delivery1(records[0]).Delivered? then Truncate(Delivery1(records[0]), nBuf)
    else FirstDelivery(records[1..], nBuf)
  }

  /** A buffer laid out from records delivers the first of them that delivers anything. */
  lemma {:induction false} ParseInvertsLayout(abi: Abi, rbuf: seq<byte>, off: nat, records: seq<Record>, nBuf: nat)
    requires |rbuf| < TWO32 && LaidOut(abi, rbuf, off, records)
    ensures FirstUsable(abi, rbuf, off, nBuf) == FirstDelivery(records, nBuf)
    decreases |records|
  {
    if records != [] {
      RecordDelivers(abi, rbuf, off, records[0]);
      NextOfRecord(abi, rbuf, off, records[0]);
      ParseInvertsLayout(abi, rbuf, NextRecord(abi, rbuf, off), records[1..], nBuf);
    }
  }

  lemma RecordDelivers(abi: Abi, rbuf: seq<byte>, off: nat, r: Record)
    requires RecordAt(abi, rbuf, off, r)
    ensures RecordDelivery(abi, rbuf, off) == Delivery1(r)
  {
  }

  // ---- The two receivers ----

  /** What the Linux receiver delivers of one packet; PacketRecvfromUdp meets it. */
  function LinuxDelivery(p: seq<byte>, nBuf: nat): Delivery {
    if PacketLinux.Accepted(p, nBuf, true) then Delivered(Payload(p), Source(p)) else Nothing
  }

  /** What the BSD parser delivers of the same packet captured whole in one record. */
  function BsdDelivery(p: seq<byte>, nBuf: nat): Delivery {
    if Deliverable(p, true) then Truncate(Delivered(Payload(p), Source(p)), nBuf) else Nothing
  }

  lemma BsdDeliveryIsParsed(abi: Abi, rbuf: seq<byte>, f: seq<byte>, hdrlen: nat, nBuf: nat)
    requires |rbuf| < TWO32 && ETHER_HDR <= |f|
    requires LaidOut(abi, rbuf, 0, [Record(hdrlen, f, |f|)])
    ensures FirstUsable(abi, rbuf, 0, nBuf) == BsdDelivery(f[ETHER_HDR..], nBuf)
  {
    ParseInvertsLayout(abi, rbuf, 0, [Record(hdrlen, f, |f|)], nBuf);
    assert FirstDelivery([Record(hdrlen, f, |f|)][1..], nBuf) == Nothing;
  }

  /**
   * Without a filter the receivers differ on every deliverable fragment and on every deliverable
   * packet that overruns the caller's buffer, and on nothing else.
   */
  lemma ReceiversAgreeIff(p: seq<byte>, nBuf: nat)
    ensures LinuxDelivery(p, nBuf) == BsdDelivery(p, nBuf)
       <==> (Deliverable(p, true) ==> !Fragment(p) && TotLen(p) <= HdrLen(p) + UDP_HDR + nBuf)
  {
  }

  /** The packet ends inside the caller's buffer. */
  predicate FitsBuffer(p: seq<byte>, nBuf: nat)
    requires IP_HDR <= |p|
  {
    TotLen(p) <= HdrLen(p) + UDP_HDR + nBuf
  }

  /** A filter's verdict is how much of a frame is kept. */
  function Kept(f: seq<byte>, verdict: nat): seq<byte> {
    f[..Min(|f|, verdict)]
  }

  lemma Be16OfPrefix(p: seq<byte>, m: nat, i: nat)
    requires i + 2 <= m <= |p|
    ensures Be16(p[..m], i) == Be16(p, i)
  {
  }

  /** A packet's shape and fields are read from the octets that its total length counts. */
  lemma PrefixShape(p: seq<byte>, m: nat)
    requires 65535 <= m <= |p|
    ensures HdrLen(p[..m]) == HdrLen(p) && TotLen(p[..m]) == TotLen(p) && Fragment(p[..m]) == Fragment(p)
    ensures IpShaped(p[..m]) == IpShaped(p) && UdpShaped(p[..m]) == UdpShaped(p)
  {
    Be16OfPrefix(p, m, 2);
    Be16OfPrefix(p, m, 6);
    if IpShaped(p) {
      Be16OfPrefix(p, m, HdrLen(p) + 4);
    }
  }

  lemma SliceOfPrefix(p: seq<byte>, m: nat, a: nat, b: nat)
    requires a <= b <= m <= |p|
    ensures p[..m][a..b] == p[a..b]
  {
  }

  lemma PrefixFields(p: seq<byte>, m: nat)
    requires 65535 <= m <= |p| && UdpShaped(p) && UdpShaped(p[..m]) && HdrLen(p[..m]) == HdrLen(p)
    ensures Payload(p[..m]) == Payload(p) && Source(p[..m]) == Source(p)
    ensures SrcPort(p[..m]) == SrcPort(p) && DstPort(p[..m]) == DstPort(p) && UdpSum(p[..m]) == UdpSum(p)
  {
    var h := HdrLen(p);
    Be16OfPrefix(p, m, h);
    Be16OfPrefix(p, m, h + 2);
    Be16OfPrefix(p, m, h + 4);
    Be16OfPrefix(p, m, h + 6);
    SliceOfPrefix(p, m, 12, 16);
    SliceOfPrefix(p, m, h + UDP_HDR, h + UdpLen(p));
  }

  lemma PrefixDeliverable(p: seq<byte>, m: nat)
    requires 65535 <= m <= |p| && UdpShaped(p) && UdpShaped(p[..m]) && HdrLen(p[..m]) == HdrLen(p)
    ensures Deliverable(p[..m], true) == Deliverable(p, true)
  {
    PrefixFields(p, m);
    SliceOfPrefix(p, m, 12, 16);
    SliceOfPrefix(p, m, 16, 20);
    SliceOfPrefix(p, m, 0, HdrLen(p));
  }

  /** Octets behind the longest IP packet do not matter to the Linux receiver. */
  lemma KeptDelivers(p: seq<byte>, verdict: nat, nBuf: nat)
    requires 65535 <= verdict
    ensures LinuxDelivery(Kept(p, verdict), nBuf) == LinuxDelivery(p, nBuf)
  {
    if verdict <= |p| {
      PrefixShape(p, verdict);
      if UdpShaped(p) {
        PrefixFields(p, verdict);
        PrefixDeliverable(p, verdict);
      }
    } else {
      assert Kept(p, verdict) == p;
    }
  }

  /** A frame that was cut delivers nothing on BSD. */
  lemma CutFrameNothing(abi: Abi, rbuf: seq<byte>, r: Record, nBuf: nat)
    requires |rbuf| < TWO32 && LaidOut(abi, rbuf, 0, [r]) && |r.frame| < r.datalen
    ensures FirstUsable(abi, rbuf, 0, nBuf) == Nothing
  {
    ParseInvertsLayout(abi, rbuf, 0, [r], nBuf);
    assert FirstDelivery([r][1..], nBuf) == Nothing;
  }

  /**
   * Behind the client filters, each of which keeps what it says of its frame, the receivers agree, length,
   * octets and source, unless one of two things happens to a deliverable packet and not the other: it
   * overruns the caller's buffer, where Linux drops what BSD truncates, or its frame is longer than the
   * 65535 octets that the BSD filter keeps although its offsets moved by 14.
   */
  lemma FilteredReceiversAgree(c: Dhcp, abi: Abi, rbuf: seq<byte>, f: seq<byte>, hdrlen: nat, nBuf: nat)
    requires |rbuf| < TWO32 && |f| < TWO32 && Verdict(BsdFilter(c), f) != 0
    requires LaidOut(abi, rbuf, 0, [Record(hdrlen, Kept(f, Verdict(BsdFilter(c), f)), |f|)])
    ensures ETHER_HDR <= |f|
    ensures var p := f[ETHER_HDR..];
      (LinuxDelivery(Kept(p, Verdict(LinuxFilter(c), p)), nBuf) == FirstUsable(abi, rbuf, 0, nBuf))
        <==> (Deliverable(p, true) ==> (FitsBuffer(p, nBuf) <==> |f| <= ACCEPT))
  {
    BsdFilterMeaning(c, f);
    FilterEquivalence(c, f);
    var p := f[ETHER_HDR..];
    KeptDelivers(p, Verdict(LinuxFilter(c), p), nBuf);
    LinuxFilterMeaning(c, p);
    ReceiversAgreeIff(p, nBuf);
    if |f| <= ACCEPT {
      assert Kept(f, ACCEPT) == f;
      BsdDeliveryIsParsed(abi, rbuf, f, hdrlen, nBuf);
    } else {
      CutFrameNothing(abi, rbuf, Record(hdrlen, Kept(f, ACCEPT), |f|), nBuf);
    }
  }

  // ---- Sending and receiving ----

  lemma IpHeaderOctets(src: seq<byte>, dst: seq<byte>, dscp: byte, size: nat, sum: u16)
    requires |src| == 4 && |dst| == 4
    ensures var h := IpHeaderWith(src, dst, dscp, size, sum);
      && |h| == IP_HDR && h[0] == 0x45 && Be16(h, 2) == (IP_HDR + UDP_HDR + size) % 0x1_0000
      && h[6] == 0x40 && h[7] == 0 && h[9] == IPPROTO_UDP
      && h == h[..10] + Put16(sum) + h[12..] && h[12..16] == src && h[16..20] == dst
  {
  }

  lemma SentIpSumVerifies(src: seq<byte>, dst: seq<byte>, dscp: byte, size: nat)
    requires |src| == 4 && |dst| == 4
    ensures Checksum(IpHeader(src, dst, dscp, size)) == 0
  {
    var zeroed := IpHeaderWith(src, dst, dscp, size, 0);
    var sum := Checksum(zeroed);
    IpHeaderOctets(src, dst, dscp, size, 0);
    FilledIsWithWord(src, dst, dscp, size, sum);
    StoredChecksumVerifies(zeroed, 10, sum);
  }

  lemma FilledIsWithWord(src: seq<byte>, dst: seq<byte>, dscp: byte, size: nat, sum: u16)
    requires |src| == 4 && |dst| == 4
    ensures var zeroed := IpHeaderWith(src, dst, dscp, size, 0);
      && |zeroed| == IP_HDR && Be16(zeroed, 10) == 0
      && IpHeaderWith(src, dst, dscp, size, sum) == WithWord(zeroed, 10, sum)
  {
  }

  lemma SentUdpSumVerifies(src: Endpoint, dst: Endpoint, payload: seq<byte>)
    requires |src.addr| == 4 && |dst.addr| == 4
    ensures UdpChecksum(src.addr, dst.addr, src.port, dst.port, payload, SentUdpSum(src, dst, payload)) == 0
  {
    var c := SentUdpSum(src, dst, payload);
    var zeroed := PseudoHeader(src.addr, dst.addr, src.port, dst.port, |payload|, 0) + payload;
    assert PseudoHeader(src.addr, dst.addr, src.port, dst.port, |payload|, c) + payload == WithWord(zeroed, 18, c);
    StoredChecksumVerifies(zeroed, 18, c);
  }

  lemma UdpHeaderOctets(src: Endpoint, dst: Endpoint, payload: seq<byte>, udp: seq<byte>)
    requires |payload| <= MAX_PAYLOAD && udp == UdpHeader(src, dst, payload)
    ensures |udp| == UDP_HDR && Be16(udp, 0) == src.port && Be16(udp, 2) == dst.port
    ensures Be16(udp, 4) == UDP_HDR + |payload| && Be16(udp, 6) == SentUdpSum(src, dst, payload)
  {
  }

  lemma SentIpOctets(src: seq<byte>, dst: seq<byte>, dscp: byte, size: nat, ip: seq<byte>)
    requires |src| == 4 && |dst| == 4 && size <= MAX_PAYLOAD && ip == IpHeader(src, dst, dscp, size)
    ensures |ip| == IP_HDR && ip[0] == 0x45 && ip[9] == IPPROTO_UDP && ip[6] == 0x40 && ip[7] == 0
    ensures Be16(ip, 2) == IP_HDR + UDP_HDR + size && ip[12..16] == src && ip[16..20] == dst
  {
    IpHeaderOctets(src, dst, dscp, size, Checksum(IpHeaderWith(src, dst, dscp, size, 0)));
  }

  lemma Be16At(s: seq<byte>, i: nat, part: seq<byte>, j: nat)
    requires i + |part| <= |s| && s[i..i + |part|] == part && j + 2 <= |part|
    ensures Be16(s, i + j) == Be16(part, j)
  {
    assert s[i + j] == part[j] && s[i + j + 1] == part[j + 1];
  }

  /** The fields of a sent packet as a receiver reads them. */
  lemma SentPacketShape(src: Endpoint, dst: Endpoint, dscp: byte, payload: seq<byte>, p: seq<byte>)
    requires |src.addr| == 4 && |dst.addr| == 4 && |payload| <= MAX_PAYLOAD && p == Packet(src, dst, dscp, payload)
    ensures UdpShaped(p) && HdrLen(p) == IP_HDR && !Fragment(p)
    ensures TotLen(p) == |p| == IP_HDR + UDP_HDR + |payload|
    ensures Source(p) == src && DstPort(p) == dst.port && UdpSum(p) == SentUdpSum(src, dst, payload)
    ensures Payload(p) == payload && p[12..16] == src.addr && p[16..20] == dst.addr
    ensures p[..IP_HDR] == IpHeader(src.addr, dst.addr, dscp, |payload|)
  {
    var ip, udp := IpHeader(src.addr, dst.addr, dscp, |payload|), UdpHeader(src, dst, payload);
    SentIpOctets(src.addr, dst.addr, dscp, |payload|, ip);
    UdpHeaderOctets(src, dst, payload, udp);
    ShapeOfParts(ip, udp, payload, p);
  }

  lemma ShapeOfParts(ip: seq<byte>, udp: seq<byte>, payload: seq<byte>, p: seq<byte>)
    requires |ip| == IP_HDR && |udp| == UDP_HDR && p == ip + udp + payload
    requires ip[0] == 0x45 && ip[9] == IPPROTO_UDP && ip[6] == 0x40 && ip[7] == 0
    requires Be16(ip, 2) == IP_HDR + UDP_HDR + |payload| && Be16(udp, 4) == UDP_HDR + |payload|
    ensures UdpShaped(p) && HdrLen(p) == IP_HDR && !Fragment(p) && TotLen(p) == |p|
    ensures Source(p) == Endpoint(ip[12..16], Be16(udp, 0)) && DstPort(p) == Be16(udp, 2) && UdpSum(p) == Be16(udp, 6)
    ensures Payload(p) == payload && p[12..16] == ip[12..16] && p[16..20] == ip[16..20] && p[..IP_HDR] == ip
  {
    assert p[0..20] == ip && p[20..28] == udp;
    Be16At(p, 0, ip, 2);
    Be16At(p, 0, ip, 6);
    Be16At(p, 20, udp, 0);
    Be16At(p, 20, udp, 2);
    Be16At(p, 20, udp, 4);
    Be16At(p, 20, udp, 6);
  }

  lemma SentPacketDeliverable(src: Endpoint, dst: Endpoint, dscp: byte, payload: seq<byte>, p: seq<byte>)
    requires |src.addr| == 4 && |dst.addr| == 4 && |payload| <= MAX_PAYLOAD && p == Packet(src, dst, dscp, payload)
    ensures Deliverable(p, true) && Payload(p) == payload && Source(p) == src && !Fragment(p)
    ensures |p| == IP_HDR + UDP_HDR + |payload|
  {
    SentPacketShape(src, dst, dscp, payload, p);
    SentIpSumVerifies(src.addr, dst.addr, dscp, |payload|);
    SentUdpSumVerifies(src, dst, payload);
  }

  lemma {:induction false} DeliveredPayloadFits(abi: Abi, rbuf: seq<byte>, off: nat, nBuf: nat)
    requires |rbuf| < TWO32
    ensures var d := FirstUsable(abi, rbuf, off, nBuf); d.Delivered? ==> |d.payload| <= MAX_PAYLOAD
    decreases |rbuf| - off
  {
    if SoundHeader(abi, rbuf, off) && RecordDelivery(abi, rbuf, off).Nothing? {
      DeliveredPayloadFits(abi, rbuf, NextRecord(abi, rbuf, off), nBuf);
    }
  }

  lemma WholeFrameDelivered(abi: Abi, rbuf: seq<byte>, hdrlen: nat, ether: seq<byte>, p: seq<byte>, f: seq<byte>,
                            nBuf: nat)
    requires |rbuf| < TWO32 && |ether| == ETHER_HDR && f == ether + p && RecordAt(abi, rbuf, 0, Record(hdrlen, f, |f|))
    requires Deliverable(p, true) && |Payload(p)| <= nBuf
    ensures FirstUsable(abi, rbuf, 0, nBuf) == Delivered(Payload(p), Source(p))
  {
    assert f[ETHER_HDR..] == p;
    RecordDelivers(abi, rbuf, 0, Record(hdrlen, f, |f|));
    assert Payload(p)[..|Payload(p)|] == Payload(p);
  }

  /**
   * Round trip.  A frame built by PacketSendtoUdp and captured whole as the first record of a read is
   * parsed back to the payload and the sender it was built from, exactly when the payload fits the
   * 16-bit length of IP; a longer one is never delivered.
   */
  lemma SendParseRoundTrip(abi: Abi, rbuf: seq<byte>, hdrlen: nat, ether: seq<byte>,
                           src: Endpoint, dst: Endpoint, dscp: byte, payload: seq<byte>, f: seq<byte>, nBuf: nat)
    requires |rbuf| < TWO32 && |ether| == ETHER_HDR && |src.addr| == 4 && |dst.addr| == 4
    requires |payload| <= nBuf
    requires f == ether + Packet(src, dst, dscp, payload) && RecordAt(abi, rbuf, 0, Record(hdrlen, f, |f|))
    ensures FirstUsable(abi, rbuf, 0, nBuf) == Delivered(payload, src) <==> |payload| <= MAX_PAYLOAD
  {
    if |payload| <= MAX_PAYLOAD {
      var p := Packet(src, dst, dscp, payload);
      SentPacketDeliverable(src, dst, dscp, payload, p);
      WholeFrameDelivered(abi, rbuf, hdrlen, ether, p, f, nBuf);
    } else {
      DeliveredPayloadFits(abi, rbuf, 0, nBuf);
    }
  }

  /** What the two receivers deliver of a sent packet. */
  lemma SentPacketDelivery(src: Endpoint, dst: Endpoint, dscp: byte, payload: seq<byte>, p: seq<byte>, nBuf: nat)
    requires |src.addr| == 4 && |dst.addr| == 4 && |payload| <= MAX_PAYLOAD && p == Packet(src, dst, dscp, payload)
    ensures LinuxDelivery(p, nBuf) == if |payload| <= nBuf then Delivered(payload, src) else Nothing
    ensures BsdDelivery(p, nBuf) == Delivered(payload[..Min(|payload|, nBuf)], src)
  {
    SentPacketDeliverable(src, dst, dscp, payload, p);
  }

  /** The disagreement on a short buffer is real: every sent datagram with a payload shows it. */
  lemma ShortBufferDisagreement(src: Endpoint, dst: Endpoint, dscp: byte, payload: seq<byte>, nBuf: nat)
    requires |src.addr| == 4 && |dst.addr| == 4 && nBuf < |payload| <= MAX_PAYLOAD
    ensures LinuxDelivery(Packet(src, dst, dscp, payload), nBuf) == Nothing
    ensures BsdDelivery(Packet(src, dst, dscp, payload), nBuf) == Delivered(payload[..nBuf], src)
  {
    SentPacketDelivery(src, dst, dscp, payload, Packet(src, dst, dscp, payload), nBuf);
  }

  /** A reply sent to the client port also passes the client's filter. */
  lemma SentReplyPassesFilter(c: Dhcp, ether: seq<byte>, src: Endpoint, dst: Endpoint, dscp: byte, payload: seq<byte>)
    requires |ether| == ETHER_HDR && |src.addr| == 4 && |dst.addr| == 4
    requires c.messageSize <= |payload| <= MAX_PAYLOAD && dst.port == CLIENT_PORT
    ensures Verdict(BsdFilter(c), ether + Packet(src, dst, dscp, payload)) == ACCEPT
       <==> Be16(ether, 12) == ETHERTYPE_IP && ReplyAt(c, payload, 0)
  {
    var p := Packet(src, dst, dscp, payload);
    SentPacketShape(src, dst, dscp, payload, p);
    FramedPasses(c, ether, p, payload, ether + p);
  }

  lemma FramedPasses(c: Dhcp, ether: seq<byte>, p: seq<byte>, payload: seq<byte>, f: seq<byte>)
    requires |ether| == ETHER_HDR && f == ether + p && c.messageSize <= |payload|
    requires UdpShaped(p) && HdrLen(p) == IP_HDR && !Fragment(p) && Payload(p) == payload && DstPort(p) == CLIENT_PORT
    requires TotLen(p) == |p| == IP_HDR + UDP_HDR + |payload| <= 0xFFFF
    ensures Verdict(BsdFilter(c), f) == ACCEPT <==> Be16(ether, 12) == ETHERTYPE_IP && ReplyAt(c, payload, 0)
  {
    BsdFilterMeaning(c, f);
    assert f[ETHER_HDR..] == p && Be16(f, 12) == Be16(ether, 12);
    assert p[IP_HDR + UDP_HDR..] == payload;
    ReplyInSuffix(c, p, IP_HDR + UDP_HDR);
  }

  /** One captured frame, as a read returns it. */
  function OneRead(abi: Abi, r: Record): (rbuf: seq<byte>)
    requires 0 < abi.align && Framable(abi, r)
    ensures |rbuf| < r.hdrlen + |r.frame| + abi.align
  {
    assert Layout(abi, [r][1..]) == [];
    Layout(abi, [r])
  }

  /** The round trip on a read of just that frame: there is such a read for every frame. */
  lemma OneReadRoundTrip(abi: Abi, hdrlen: nat, ether: seq<byte>, src: Endpoint, dst: Endpoint, dscp: byte,
                         payload: seq<byte>, f: seq<byte>)
    requires FieldsApart(abi) && abi.align <= 0x1_0000 && abi.hdrSize <= hdrlen < 0x1_0000
    requires |ether| == ETHER_HDR && |src.addr| == 4 && |dst.addr| == 4
    requires f == ether + Packet(src, dst, dscp, payload) && |f| < 0x8000_0000
    ensures FirstUsable(abi, OneRead(abi, Record(hdrlen, f, |f|)), 0, |payload|) == Delivered(payload, src)
       <==> |payload| <= MAX_PAYLOAD
  {
    var r := Record(hdrlen, f, |f|);
    LayoutIsLaidOut(abi, [r]);
    SendParseRoundTrip(abi, OneRead(abi, r), hdrlen, ether, src, dst, dscp, payload, f, |payload|);
  }

  lemma CutReadNothing(abi: Abi, hdrlen: nat, kept: seq<byte>, datalen: nat, nBuf: nat)
    requires FieldsApart(abi) && abi.align <= 0x1_0000 && abi.hdrSize <= hdrlen < 0x1_0000
    requires |kept| < datalen < TWO32 && |kept| < 0x8000_0000
    ensures FirstUsable(abi, OneRead(abi, Record(hdrlen, kept, datalen)), 0, nBuf) == Nothing
  {
    var r := Record(hdrlen, kept, datalen);
    LayoutIsLaidOut(abi, [r]);
    CutFrameNothing(abi, OneRead(abi, r), r, nBuf);
  }

  /**
   * The cut is real: a reply that leaves less than 14 octets of the 16-bit IP length unused is delivered by the
   * Linux receiver, and cut and dropped on BSD.
   */
  lemma LongReplyCut(c: Dhcp, abi: Abi, hdrlen: nat, ether: seq<byte>, src: Endpoint, dst: Endpoint, dscp: byte,
                     payload: seq<byte>, nBuf: nat, f: seq<byte>, kept: seq<byte>)
    requires FieldsApart(abi) && abi.align <= 0x1_0000 && abi.hdrSize <= hdrlen < 0x1_0000
    requires |ether| == ETHER_HDR && |src.addr| == 4 && |dst.addr| == 4
    requires c.messageSize <= |payload| && MAX_PAYLOAD - ETHER_HDR < |payload| <= MAX_PAYLOAD && |payload| <= nBuf
    requires dst.port == CLIENT_PORT && Be16(ether, 12) == ETHERTYPE_IP && ReplyAt(c, payload, 0)
    requires f == ether + Packet(src, dst, dscp, payload) && |f| < TWO32
    requires kept == Kept(f, Verdict(BsdFilter(c), f)) && |kept| < 0x8000_0000
    ensures LinuxDelivery(Packet(src, dst, dscp, payload), nBuf) == Delivered(payload, src)
    ensures |kept| == ACCEPT < |f| && FirstUsable(abi, OneRead(abi, Record(hdrlen, kept, |f|)), 0, nBuf) == Nothing
  {
    var p := Packet(src, dst, dscp, payload);
    SentReplyPassesFilter(c, ether, src, dst, dscp, payload);
    SentPacketDelivery(src, dst, dscp, payload, p, nBuf);
    SentPacketDeliverable(src, dst, dscp, payload, p);
    CutReadNothing(abi, hdrlen, kept, |f|, nBuf);
  }

  lemma ReplyInSuffix(c: Dhcp, p: seq<byte>, m: nat)
    requires m <= |p|
    ensures ReplyAt(c, p, m) <==> ReplyAt(c, p[m..], 0)
  {
  }

  // ---- Changed payloads ----

  lemma {:induction false} PseudoHeaderSumPositive(
    src: seq<byte>, dst: seq<byte>, sport: u16, dport: u16, data: seq<byte>, check: u16)
    requires |src| == 4 && |dst| == 4
    ensures PlainSum(PseudoHeader(src, dst, sport, dport, |data|, check) + data) > 0
  {
    var all := PseudoHeader(src, dst, sport, dport, |data|, check) + data;
    assert Be16(all, 8) == IPPROTO_UDP;
    SumWithWord(all, 8, 0);
  }

  /** Everything but the payload is read from the headers. */
  lemma HeadersDecideShape(p: seq<byte>, p': seq<byte>)
    requires UdpShaped(p) && |p'| == |p| && p'[..HdrLen(p) + UDP_HDR] == p[..HdrLen(p) + UDP_HDR]
    ensures UdpShaped(p') && HdrLen(p') == HdrLen(p) && UdpLen(p') == UdpLen(p)
    ensures SrcPort(p') == SrcPort(p) && DstPort(p') == DstPort(p) && UdpSum(p') == UdpSum(p)
    ensures p'[..HdrLen(p)] == p[..HdrLen(p)] && p'[12..16] == p[12..16] && p'[16..20] == p[16..20]
  {
    var h := HdrLen(p) + UDP_HDR;
    assert forall i :: 0 <= i < h ==> p'[i] == p'[..h][i] == p[i];
  }

  /** Changing a word behind a prefix changes a word of the whole. */
  lemma PrefixWithWord(prefix: seq<byte>, data: seq<byte>, k: nat, w: u16, at: nat)
    requires k + 2 <= |data| && at == |prefix| + k
    ensures prefix + WithWord(data, k, w) == WithWord(prefix + data, at, w)
    ensures Be16(prefix + data, at) == Be16(data, k)
  {
  }

  lemma SumAfterChange(all: seq<byte>, all': seq<byte>, at: nat, w: u16, was: u16)
    requires at % 2 == 0 && at + 2 <= |all| && all' == WithWord(all, at, w) && was == Be16(all, at)
    requires Checksum(all) == 0 && PlainSum(all') > 0
    ensures Checksum(all') == 0 <==> SameModuloOnes(w, was)
  {
    ChangedWordDetected(all, at, w);
  }

  lemma PrefixedSumAfterChange(prefix: seq<byte>, data: seq<byte>, k: nat, w: u16, at: nat)
    requires at == |prefix| + k && at % 2 == 0 && k + 2 <= |data|
    requires Checksum(prefix + data) == 0 && PlainSum(prefix + WithWord(data, k, w)) > 0
    ensures Checksum(prefix + WithWord(data, k, w)) == 0 <==> SameModuloOnes(w, Be16(data, k))
  {
    PrefixWithWord(prefix, data, k, w, at);
    SumAfterChange(prefix + data, prefix + WithWord(data, k, w), at, w, Be16(data, k));
  }

  lemma PseudoHeaderSize(src: seq<byte>, dst: seq<byte>, sport: u16, dport: u16, size: nat, check: u16)
    requires |src| == 4 && |dst| == 4
    ensures |PseudoHeader(src, dst, sport, dport, size, check)| == 20
  {
  }

  lemma UdpSumAfterChange(
    src: seq<byte>, dst: seq<byte>, sport: u16, dport: u16, data: seq<byte>, check: u16, k: nat, w: u16)
    requires |src| == 4 && |dst| == 4 && k % 2 == 0 && k + 2 <= |data|
    requires UdpChecksum(src, dst, sport, dport, data, check) == 0
    ensures UdpChecksum(src, dst, sport, dport, WithWord(data, k, w), check) == 0 <==> SameModuloOnes(w, Be16(data, k))
  {
    PseudoHeaderSize(src, dst, sport, dport, |data|, check);
    PseudoHeaderSumPositive(src, dst, sport, dport, WithWord(data, k, w), check);
    PrefixedSumAfterChange(PseudoHeader(src, dst, sport, dport, |data|, check), data, k, w, 20 + k);
  }

  /**
   * Replacing one aligned 16-bit word of a checksummed datagram's payload makes the parser drop it,
   * except when the words are the two zeros of one's complement arithmetic.
   */
  lemma ChangedPayloadWordDropped(p: seq<byte>, k: nat, w: u16)
    requires Deliverable(p, true) && UdpSum(p) != 0
    requires k % 2 == 0 && k + 2 <= |Payload(p)|
    ensures Deliverable(WithWord(p, HdrLen(p) + UDP_HDR + k, w), true) <==> SameModuloOnes(w, Be16(Payload(p), k))
  {
    ChangedPayloadShape(p, k, w);
    UdpSumAfterChange(p[12..16], p[16..20], SrcPort(p), DstPort(p), Payload(p), UdpSum(p), k, w);
  }

  lemma ChangedPayloadShape(p: seq<byte>, k: nat, w: u16)
    requires UdpShaped(p) && k + 2 <= |Payload(p)|
    ensures var p' := WithWord(p, HdrLen(p) + UDP_HDR + k, w);
      && UdpShaped(p') && HdrLen(p') == HdrLen(p) && Payload(p') == WithWord(Payload(p), k, w)
      && SrcPort(p') == SrcPort(p) && DstPort(p') == DstPort(p) && UdpSum(p') == UdpSum(p)
      && p'[..HdrLen(p)] == p[..HdrLen(p)] && p'[12..16] == p[12..16] && p'[16..20] == p[16..20]
  {
    var at := HdrLen(p) + UDP_HDR;
    var p' := WithWord(p, at + k, w);
    assert p'[..at] == p[..at];
    HeadersDecideShape(p, p');
    PayloadOfChanged(p, p', at, at + UdpLen(p) - UDP_HDR, k, w);
  }

  lemma PayloadOfChanged(p: seq<byte>, p': seq<byte>, from: nat, to: nat, k: nat, w: u16)
    requires from + k + 2 <= to <= |p| && p' == WithWord(p, from + k, w)
    ensures p'[from..to] == WithWord(p[from..to], k, w)
  {
  }
}
