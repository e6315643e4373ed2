/** Constants that the protocols fix. */
module Protocol {
  const ETHER_HDR := 14
  const ETHER_ADDR_LEN := 6
  const ETHERTYPE_IP := 0x0800
  const ETHERTYPE_ARP := 0x0806

  const IPVERSION := 4
  const IP_HDR := 20
  const IPPROTO_UDP := 17
  const UDP_HDR := 8
}
