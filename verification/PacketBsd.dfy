/** UDP over a BPF device: pulling a datagram out of a read buffer, and building a frame to write. */
module PacketBsd {
  import opened Bytes
  import opened Errno
  import opened Protocol
  import opened InetChecksum
  import opened UdpDatagram
  import opened BpfFraming

  const EINVAL := 22

  // ---- Receiving ----

  /** What a receive call reports and leaves in its caller's buffer when it delivers d. */
  predicate Delivers(d: Delivery, before: seq<byte>, after: seq<byte>, n: nat, src: Option<Endpoint>) {
    match d
    case Nothing => n == 0 && src.None? && after == before
    case Delivered(payload, from) =>
      && n == |payload| <= |before| == |after| && src == Some(from)
      && after[..n] == payload && after[n..] == before[n..]
  }

  /** A whole captured frame that carries a deliverable datagram. */
  predicate Usable(abi: Abi, rbuf: seq<byte>, off: nat)
    requires SoundHeader(abi, rbuf, off)
  {
    var frame := Frame(abi, rbuf, off);
    && BhCaplen(abi, rbuf, off) == BhDatalen(abi, rbuf, off)
    && ETHER_HDR <= |frame|
    && Deliverable(frame[ETHER_HDR..], true)
  }

  /** What one sound record delivers. */
  function RecordDelivery(abi: Abi, rbuf: seq<byte>, off: nat): (d: Delivery)
    requires SoundHeader(abi, rbuf, off)
  {
    if Usable(abi, rbuf, off) then
      var p := Frame(abi, rbuf, off)[ETHER_HDR..];
      Delivered(Payload(p), Source(p))
    else Nothing
  }

  function Truncate(d: Delivery, nBuf: nat): (r: Delivery)
    requires d.Delivered?
    ensures r.Delivered? && |r.payload| <= nBuf
  {
    Delivered(d.payload[..Min(|d.payload|, nBuf)], d.src)
  }

  /** The datagram delivered from a buffer: that of the first usable record at or after off. */
  function FirstUsable(abi: Abi, rbuf: seq<byte>, off: nat, nBuf: nat): (d: Delivery)
    requires |rbuf| < TWO32
    ensures d.Delivered? ==> |d.payload| <= nBuf
    decreases |rbuf| - off
  {
    if !SoundHeader(abi, rbuf, off) then Nothing
    else
      var d := RecordDelivery(abi, rbuf, off);
      if d.Delivered? then Truncate(d, nBuf)
      else
        FirstUsable(abi, rbuf, NextRecord(abi, rbuf, off), nBuf)
  }

  method VerifyIpSum(p: seq<byte>, hdrlen: nat) returns (ok: bool)
    requires IpShaped(p) && hdrlen == HdrLen(p)
    ensures ok == IpSumVerifies(p)
  {
    var sum := InternetChecksum(p[..hdrlen]);
    ok := sum == 0;
  }

  method VerifyUdpSum(p: seq<byte>, sport: u16, dport: u16, data: seq<byte>, check: u16) returns (ok: bool)
    requires UdpShaped(p) && sport == SrcPort(p) && dport == DstPort(p) && data == Payload(p) && check == UdpSum(p)
    ensures ok == UdpSumVerifies(p)
  {
    ok := true;
    if check != 0 {
      var sum := InternetChecksumUdp(p[12..16], p[16..20], sport, dport, data, check);
      ok := sum == 0;
    }
  }

  /** The checks on one whole frame, from its IP header on. */
  method CheckPacket(p: seq<byte>) returns (r: Delivery)
    requires IP_HDR + UDP_HDR <= |p|
    ensures r == if Deliverable(p, true) then Delivered(Payload(p), Source(p)) else Nothing
  {
    r := Nothing;
    if p[0] / 16 != IPVERSION { return; }

    var hdrlen := p[0] % 16 * 4;
    if hdrlen < IP_HDR || hdrlen > |p| { return; }
    if p[9] != IPPROTO_UDP { return; }

    var iplen := Be16(p, 2);
    if iplen > |p| || iplen < hdrlen + UDP_HDR { return; }

    var ipSum := VerifyIpSum(p, hdrlen);
    if !ipSum { return; }

    var udplen := Be16(p, hdrlen + 4);
    if udplen < UDP_HDR || hdrlen + udplen > iplen { return; }

    var data := p[hdrlen + UDP_HDR..hdrlen + udplen];
    var udpSum := VerifyUdpSum(p, Be16(p, hdrlen), Be16(p, hdrlen + 2), data, Be16(p, hdrlen + 6));
    if !udpSum { return; }
    r := Delivered(data, Endpoint(p[12..16], Be16(p, hdrlen)));
  }

  /** One record: dropped when the capture was cut short, otherwise checked. */
  method CheckRecord(abi: Abi, rbuf: seq<byte>, off: nat) returns (r: Delivery)
    requires SoundHeader(abi, rbuf, off)
    ensures r == RecordDelivery(abi, rbuf, off)
  {
    var frame := Frame(abi, rbuf, off);
    r := Nothing;
    if BhCaplen(abi, rbuf, off) != BhDatalen(abi, rbuf, off) { return; }
    if |frame| < ETHER_HDR + IP_HDR + UDP_HDR { return; }
    r := CheckPacket(frame[ETHER_HDR..]);
  }

  /** A buffer's contents after `data` was copied to its start. */
  function Overwrite(buf: seq<byte>, data: seq<byte>): seq<byte>
    requires |data| <= |buf|
  {
    data + buf[|data|..]
  }

  method MemCpy(buf: array<byte>, data: seq<byte>)
    requires |data| <= buf.Length
    modifies buf
    ensures buf[..] == Overwrite(old(buf[..]), data)
  {
    forall i | 0 <= i < |data| {
      buf[i] := data[i];
    }
  }

  method PacketBsdParse(abi: Abi, rbuf: seq<byte>, buf: array<byte>)
    returns (n: nat, src: Option<Endpoint>)
    requires abi.Valid() && |rbuf| < TWO32
    modifies buf
    ensures Delivers(FirstUsable(abi, rbuf, 0, buf.Length), old(buf[..]), buf[..], n, src)
  {
    n, src := 0, None;
    var off := 0;
    while off + abi.hdrSize <= |rbuf|
      invariant FirstUsable(abi, rbuf, off, buf.Length) == FirstUsable(abi, rbuf, 0, buf.Length)
      invariant buf[..] == old(buf[..])
      decreases |rbuf| - off
    {
      if !SoundHeader(abi, rbuf, off) { return; }
      var packet := CheckRecord(abi, rbuf, off);
      if packet.Delivered? {
        n := if |packet.payload| > buf.Length then buf.Length else |packet.payload|;
        MemCpy(buf, packet.payload[..n]);
        src := Some(packet.src);
        return;
      }
      off := NextRecord(abi, rbuf, off);
    }
  }

  // ---- Sending ----

  const IP_DF := 0x4000
  const IPDEFTTL := 64

  /** struct ip, and the octets it stands for. */
  datatype Ip = Ip(v: nat, hl: nat, tos: byte, len: u16, id: u16, off: u16, ttl: byte, p: byte, sum: u16,
                   src: seq<byte>, dst: seq<byte>) {
    function Octets(): seq<byte>
      requires v < 16 && hl < 16
    {
      [v * 16 + hl, tos] + Put16(len) + Put16(id) + Put16(off) + [ttl, p] + Put16(sum) + src + dst
    }
  }

  /** An IP header without options; the length is truncated to 16 bits as htons does. */
  function IpHeaderWith(src: seq<byte>, dst: seq<byte>, dscp: byte, size: nat, sum: u16): seq<byte> {
    [0x45, dscp * 4 % 0x100] + Put16((IP_HDR + UDP_HDR + size) % 0x1_0000) + [0, 0] + [0x40, 0]
      + [IPDEFTTL, IPPROTO_UDP] + Put16(sum) + src + dst
  }

  function IpHeader(src: seq<byte>, dst: seq<byte>, dscp: byte, size: nat): seq<byte> {
    IpHeaderWith(src, dst, dscp, size, Checksum(IpHeaderWith(src, dst, dscp, size, 0)))
  }

  /** A computed checksum of zero is sent as 0xffff: zero would say that there is none. */
  function SentUdpSum(src: Endpoint, dst: Endpoint, payload: seq<byte>): (c: u16)
    ensures c != 0
  {
    var sum := UdpChecksum(src.addr, dst.addr, src.port, dst.port, payload, 0);
    if sum != 0 then sum else ONES
  }

  function UdpHeader(src: Endpoint, dst: Endpoint, payload: seq<byte>): seq<byte> {
    Put16(src.port) + Put16(dst.port) + Put16((UDP_HDR + |payload|) % 0x1_0000) + Put16(SentUdpSum(src, dst, payload))
  }

  /** The packet, from its IP header on. */
  function Packet(src: Endpoint, dst: Endpoint, dscp: byte, payload: seq<byte>): seq<byte> {
    IpHeader(src.addr, dst.addr, dscp, |payload|) + UdpHeader(src, dst, payload) + payload
  }

  /** A frame that carries p in IPv4: the recipient's hardware address, the sender's, the type, and p. */
  predicate IsFrame(f: seq<byte>, to: seq<byte>, from: seq<byte>, p: seq<byte>) {
    && |f| == 14 + |p| && f[..6] == to && f[6..12] == from
    && f[12] == 8 && f[13] == 0 && f[14..] == p
  }

  method FillIpHeader(src: seq<byte>, dst: seq<byte>, dscp: byte, size: nat) returns (octets: seq<byte>)
    ensures octets == IpHeader(src, dst, dscp, size)
  {
    var hdr := Ip(0, 0, 0, 0, 0, 0, 0, 0, 0, [0, 0, 0, 0], [0, 0, 0, 0]);
    hdr := hdr.(v := IPVERSION);
    hdr := hdr.(hl := IP_HDR / 4);
    hdr := hdr.(tos := dscp * 4 % 0x100);
    hdr := hdr.(len := (IP_HDR + UDP_HDR + size) % 0x1_0000);
    hdr := hdr.(off := IP_DF);
    hdr := hdr.(ttl := IPDEFTTL);
    hdr := hdr.(p := IPPROTO_UDP);
    hdr := hdr.(src := src, dst := dst);
    var sum := InternetChecksum(hdr.Octets());
    hdr := hdr.(sum := sum);
    octets := hdr.Octets();
  }

  /**
   * packet_sendto_udp.  `hwaddr` is the interface's own address or the error of looking it up, and
   * `written` what writev returns, negative for an error; r is the return value and `sent` the frame
   * that was handed to writev.
   */
  method PacketSendtoUdp(payload: seq<byte>, src: Endpoint, dst: Endpoint, dscp: byte,
                         halen: nat, to: seq<byte>, hwaddr: Option<seq<byte>>, hwerror: int, written: int)
    returns (r: int, n: Option<nat>, sent: Option<seq<byte>>)
    requires |src.addr| == 4 && |dst.addr| == 4
    requires ETHER_ADDR_LEN <= |to| && (hwaddr.Some? ==> |hwaddr.value| == ETHER_ADDR_LEN) && hwerror < 0
    ensures halen != ETHER_ADDR_LEN ==> r == -EINVAL && sent.None?
    ensures halen == ETHER_ADDR_LEN && hwaddr.None? ==> r == hwerror && sent.None?
    ensures halen == ETHER_ADDR_LEN && hwaddr.Some? ==>
      sent.Some? && IsFrame(sent.value, to[..ETHER_ADDR_LEN], hwaddr.value, Packet(src, dst, dscp, payload))
    ensures sent.Some? ==> r == if written < 0 then written else if written != |sent.value| then -EIO else 0
    ensures n == if r == 0 then Some(|payload|) else None
  {
    r, n, sent := 0, None, None;
    if halen != ETHER_ADDR_LEN { return -EINVAL, None, None; }
    if hwaddr.None? { return hwerror, None, None; }
    var ether := to[..ETHER_ADDR_LEN] + hwaddr.value + Put16(ETHERTYPE_IP);
    var ip := FillIpHeader(src.addr, dst.addr, dscp, |payload|);
    var sum := InternetChecksumUdp(src.addr, dst.addr, src.port, dst.port, payload, 0);
    var udp := Put16(src.port) + Put16(dst.port) + Put16((UDP_HDR + |payload|) % 0x1_0000)
               + Put16(if sum != 0 then sum else ONES);
    var frame := ether + (ip + udp + payload);
    sent := Some(frame);
    if written < 0 { return written, None, sent; }
    if written != |frame| { return -EIO, None, sent; }
    n := Some(|payload|);
  }
}
