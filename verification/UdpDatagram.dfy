/**
 * A UDP datagram in an IPv4 packet: the layout of section 3.1 of RFC 791 and of RFC 768, and what
 * makes a packet one that a receiver may deliver.  Stated without any order of checks.
 */
module UdpDatagram {
  import opened Bytes
  import opened Protocol
  import opened InetChecksum

  datatype Endpoint = Endpoint(addr: seq<byte>, port: u16)

  function HdrLen(p: seq<byte>): nat
    requires IP_HDR <= |p|
  {
    p[0] % 16 * 4
  }

  function TotLen(p: seq<byte>): u16
    requires IP_HDR <= |p|
  {
    Be16(p, 2)
  }

  predicate Fragment(p: seq<byte>)
    requires IP_HDR <= |p|
  {
    Be16(p, 6) % 0x4000 != 0
  }

  /** IPv4, UDP, and header and total length consistent with each other and with the packet. */
  predicate IpShaped(p: seq<byte>) {
    && IP_HDR <= |p|
    && p[0] / 16 == IPVERSION
    && p[9] == IPPROTO_UDP
    && IP_HDR <= HdrLen(p)
    && HdrLen(p) + UDP_HDR <= TotLen(p) <= |p|
  }

  function SrcPort(p: seq<byte>): u16 requires IpShaped(p) { Be16(p, HdrLen(p)) }

  function DstPort(p: seq<byte>): u16 requires IpShaped(p) { Be16(p, HdrLen(p) + 2) }

  function UdpLen(p: seq<byte>): u16 requires IpShaped(p) { Be16(p, HdrLen(p) + 4) }

  function UdpSum(p: seq<byte>): u16 requires IpShaped(p) { Be16(p, HdrLen(p) + 6) }

  /** The UDP length counts its own header and stays inside the IP packet. */
  predicate UdpShaped(p: seq<byte>) {
    IpShaped(p) && UDP_HDR <= UdpLen(p) && HdrLen(p) + UdpLen(p) <= TotLen(p)
  }

  function Payload(p: seq<byte>): seq<byte>
    requires UdpShaped(p)
  {
    p[HdrLen(p) + UDP_HDR..HdrLen(p) + UdpLen(p)]
  }

  function Source(p: seq<byte>): Endpoint
    requires IpShaped(p)
  {
    Endpoint(p[12..16], SrcPort(p))
  }

  predicate IpSumVerifies(p: seq<byte>)
    requires IpShaped(p)
  {
    Checksum(p[..HdrLen(p)]) == 0
  }

  /** The datagram verifies, or its checksum field says that it carries none. */
  predicate UdpSumVerifies(p: seq<byte>)
    requires UdpShaped(p)
  {
    UdpSum(p) != 0 ==>
      UdpChecksum(p[12..16], p[16..20], SrcPort(p), DstPort(p), Payload(p), UdpSum(p)) == 0
  }

  predicate Deliverable(p: seq<byte>, verify: bool) {
    UdpShaped(p) && (verify ==> IpSumVerifies(p) && UdpSumVerifies(p))
  }

  /** What a receive call hands to its caller. */
  datatype Delivery = Nothing | Delivered(payload: seq<byte>, src: Endpoint)
}
