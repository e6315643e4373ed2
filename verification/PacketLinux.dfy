/**
 * The Linux receiver that the BSD parser stands in for: it peeks at the IP header, then reads the
 * packet into the IP header, the UDP header and the caller's buffer.
 */
module PacketLinux {
  import opened Bytes
  import opened Protocol
  import opened InetChecksum
  import opened UdpDatagram
  import PacketBsd

  /** What recvmsg leaves in a caller's buffer that starts `at` octets into the packet. */
  function Scattered(p: seq<byte>, at: nat, before: seq<byte>): (after: seq<byte>)
    ensures |after| == |before|
  {
    if |p| <= at then before
    else PacketBsd.Overwrite(before, p[at..Min(|p|, at + |before|)])
  }

  /** The packet's octets from there on, as far as the buffer goes; behind them the buffer keeps its own. */
  lemma ScatteredOctets(p: seq<byte>, at: nat, before: seq<byte>, i: nat)
    requires i < |before|
    ensures Scattered(p, at, before)[i] == if at + i < |p| then p[at + i] else before[i]
  {
  }

  /** The header part of a packet that leaves the peek with a valid header length. */
  predicate PeekPasses(p: seq<byte>) {
    IP_HDR <= |p| && p[0] / 16 == IPVERSION && IP_HDR <= HdrLen(p)
  }

  /** The packet is delivered: complete within the caller's buffer, unfragmented and deliverable. */
  predicate Accepted(p: seq<byte>, nBuf: nat, verify: bool) {
    Deliverable(p, verify) && TotLen(p) <= HdrLen(p) + UDP_HDR + nBuf && !Fragment(p)
  }

  /** The first read: the fixed part of the IP header, left in the queue. */
  method Peek(p: seq<byte>) returns (hdrlen: Option<nat>)
    ensures hdrlen == if PeekPasses(p) then Some(HdrLen(p)) else None
  {
    var pktlen := Min(|p|, IP_HDR);
    if pktlen < IP_HDR { return None; }
    if p[0] / 16 != IPVERSION { return None; }
    var len := p[0] % 16 * 4;
    if len < IP_HDR { return None; }
    hdrlen := Some(len);
  }

  /** The two headers as recvmsg fills them in; a short packet leaves them short. */
  predicate HeadersOf(p: seq<byte>, ipHdr: seq<byte>, udpHdr: seq<byte>)
    requires PeekPasses(p)
  {
    && ipHdr == p[..Min(|p|, HdrLen(p))]
    && udpHdr == p[|ipHdr|..Min(|p|, HdrLen(p) + UDP_HDR)]
  }

  /** The length checks on a packet of which recvmsg read `received` octets; the payload's length. */
  method CheckLengths(ipHdr: seq<byte>, udpHdr: seq<byte>, hdrlen: nat, received: nat,
                      ghost p: seq<byte>, ghost nBuf: nat)
    returns (len: Option<nat>)
    requires PeekPasses(p) && HeadersOf(p, ipHdr, udpHdr) && hdrlen == HdrLen(p)
    requires received == Min(|p|, hdrlen + UDP_HDR + nBuf)
    ensures len == if UdpShaped(p) && TotLen(p) <= hdrlen + UDP_HDR + nBuf && !Fragment(p)
                   then Some(|Payload(p)|) else None
  {
    var pktlen := received;
    if Be16(ipHdr, 2) > pktlen { return None; }
    pktlen := Be16(ipHdr, 2);

    if pktlen < hdrlen + UDP_HDR { return None; }
    var udplen := Be16(udpHdr, 4);
    if pktlen < hdrlen + udplen { return None; }
    if udplen < UDP_HDR { return None; }
    pktlen := udplen - UDP_HDR;

    if ipHdr[9] != IPPROTO_UDP { return None; }
    if Be16(ipHdr, 6) % 0x4000 != 0 { return None; }
    len := Some(pktlen);
  }

  lemma HeaderFields(p: seq<byte>, ipHdr: seq<byte>, udpHdr: seq<byte>)
    requires IpShaped(p) && HeadersOf(p, ipHdr, udpHdr)
    ensures ipHdr == p[..HdrLen(p)] && |udpHdr| == UDP_HDR
    ensures ipHdr[12..16] == p[12..16] && ipHdr[16..20] == p[16..20]
    ensures Be16(udpHdr, 0) == SrcPort(p) && Be16(udpHdr, 2) == DstPort(p) && Be16(udpHdr, 6) == UdpSum(p)
  {
  }

  method CheckSums(ipHdr: seq<byte>, udpHdr: seq<byte>, payload: seq<byte>, ghost p: seq<byte>) returns (ok: bool)
    requires UdpShaped(p) && PeekPasses(p) && HeadersOf(p, ipHdr, udpHdr) && payload == Payload(p)
    ensures ok == (IpSumVerifies(p) && UdpSumVerifies(p))
  {
    HeaderFields(p, ipHdr, udpHdr);
    var sum := InternetChecksum(ipHdr);
    if sum != 0 { return false; }
    ok := true;
    if Be16(udpHdr, 6) != 0 {
      sum := InternetChecksumUdp(ipHdr[12..16], ipHdr[16..20], Be16(udpHdr, 0), Be16(udpHdr, 2), payload,
                                 Be16(udpHdr, 6));
      ok := sum == 0;
    }
  }

  /** A packet that fits leaves its payload at the start of the buffer. */
  lemma PayloadInBuffer(p: seq<byte>, after: seq<byte>, before: seq<byte>)
    requires UdpShaped(p) && TotLen(p) <= HdrLen(p) + UDP_HDR + |before|
    requires after == Scattered(p, HdrLen(p) + UDP_HDR, before)
    ensures |Payload(p)| <= |after| && after[..|Payload(p)|] == Payload(p)
  {
  }

  /** Everything after the read; `data` is what the caller's buffer holds by then. */
  method CheckReceived(ipHdr: seq<byte>, udpHdr: seq<byte>, hdrlen: nat, received: nat,
                       data: seq<byte>, verify: bool, ghost p: seq<byte>, ghost before: seq<byte>)
    returns (r: Delivery)
    requires PeekPasses(p) && HeadersOf(p, ipHdr, udpHdr) && hdrlen == HdrLen(p)
    requires received == Min(|p|, hdrlen + UDP_HDR + |data|)
    requires data == Scattered(p, hdrlen + UDP_HDR, before)
    ensures r == if Accepted(p, |data|, verify) then Delivered(Payload(p), Source(p)) else Nothing
  {
    r := Nothing;
    var len := CheckLengths(ipHdr, udpHdr, hdrlen, received, p, |data|);
    if len.None? { return; }
    PayloadInBuffer(p, data, before);
    HeaderFields(p, ipHdr, udpHdr);
    if verify {
      var ok := CheckSums(ipHdr, udpHdr, data[..len.value], p);
      if !ok { return; }
    }
    r := Delivered(data[..len.value], Endpoint(ipHdr[12..16], Be16(udpHdr, 0)));
  }

  /** `verify` is false when the kernel says that the checksums are not filled in yet. */
  method PacketRecvfromUdp(p: seq<byte>, buf: array<byte>, verify: bool)
    returns (n: nat, src: Option<Endpoint>)
    modifies buf
    ensures buf[..] == if PeekPasses(p) then Scattered(p, HdrLen(p) + UDP_HDR, old(buf[..])) else old(buf[..])
    ensures Accepted(p, buf.Length, verify) ==>
      n == |Payload(p)| <= buf.Length && buf[..n] == Payload(p) && src == Some(Source(p))
    ensures !Accepted(p, buf.Length, verify) ==> n == 0 && src.None?
  {
    n, src := 0, None;
    var hdrlen := Peek(p);
    if hdrlen.None? { return; }

    var ipHdr := p[..Min(|p|, hdrlen.value)];
    var udpHdr := p[|ipHdr|..Min(|p|, hdrlen.value + UDP_HDR)];
    ReadInto(buf, p, hdrlen.value + UDP_HDR);
    var received := Min(|p|, hdrlen.value + UDP_HDR + buf.Length);

    var d := CheckReceived(ipHdr, udpHdr, hdrlen.value, received, buf[..], verify, p, old(buf[..]));
    if d.Delivered? {
      PayloadInBuffer(p, buf[..], old(buf[..]));
      n, src := |d.payload|, Some(d.src);
    }
  }

  method ReadInto(buf: array<byte>, p: seq<byte>, at: nat)
    modifies buf
    ensures buf[..] == Scattered(p, at, old(buf[..]))
  {
    if at < |p| {
      PacketBsd.MemCpy(buf, p[at..Min(|p|, at + buf.Length)]);
    }
  }
}
