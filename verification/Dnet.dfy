/** Constants of the headers under include/dnet, and the length field of an IPv4 header. */
module Dnet {
  import opened Memory

  // addr.h
  const ADDR_TYPE_NONE: nat := 0
  const ADDR_TYPE_ETH: nat := 1
  const ADDR_TYPE_IP: nat := 2
  const ADDR_TYPE_IP6: nat := 3

  // eth.h
  const ETH_ADDR_BITS: nat := 48
  const ETH_HDR_LEN := 14
  const ETH_LEN_MIN := 64
  const ETH_LEN_MAX := 1518

  // ip.h
  const IP_ADDR_BITS: nat := 32
  const IP_HDR_LEN := 20
  const IP_HDR_LEN_MAX := 60
  const IP_MF := 0x2000
  const IP_CHECKSUM_FRAGMENT := 1

  const IP_PROTO_IP := 0
  const IP_PROTO_HOPOPTS := 0
  const IP_PROTO_ICMP := 1
  const IP_PROTO_IGMP := 2
  const IP_PROTO_TCP := 6
  const IP_PROTO_UDP := 17
  const IP_PROTO_ROUTING := 43
  const IP_PROTO_FRAGMENT := 44
  const IP_PROTO_ICMPV6 := 58
  const IP_PROTO_DSTOPTS := 60
  const IP_PROTO_SCTP := 132

  // ip6.h
  const IP6_ADDR_BITS: nat := 128
  const IP6_HDR_LEN := 40

  // tcp.h, udp.h, icmp.h, sctp.h
  const TCP_HDR_LEN := 20
  const UDP_HDR_LEN := 8
  const ICMP_HDR_LEN := 4
  const SCTP_HDR_LEN := 12

  // intf.h
  const INTF_NAME_LEN := 32
  const INTF_FLAG_UP := 0x01
  const INTF_TYPE_OTHER := 1
  const INTF_TYPE_ETH := 6
  const INTF_TYPE_TOKENRING := 9
  const INTF_TYPE_PPP := 23
  const INTF_TYPE_LOOPBACK := 24
  const INTF_TYPE_TUN := 53

  /** `ip_hl << 2`; the header length is the low half of the first byte. */
  function HeaderLen(b: seq<byte>, ip: nat): (hl: nat)
    requires ip < |b|
    ensures hl <= 60
  {
    4 * (b[ip] as nat % 16)
  }
}
