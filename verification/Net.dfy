/** Addresses, link types and protocol numbers shared by encapsulation and decapsulation. */
module Net {
  import opened Bytes

  type Ipv4Bytes = s: bytes | |s| == 4 witness [0, 0, 0, 0]

  type Ipv6Bytes = s: bytes | |s| == 16 witness [0, 0, 0, 0, 0, 0, 0, 0, 0, 0, 0, 0, 0, 0, 0, 0]

  /** An IP address by its packed bytes; text forms are not part of this model. */
  datatype IpAddress = V4(v4: Ipv4Bytes) | V6(v6: Ipv6Bytes)

  datatype DecapsulatedUdp = DecapsulatedUdp(src: IpAddress, dst: IpAddress, srcPort: nat, dstPort: nat, payload: bytes)

  const EN10MB := 1
  const RAW := 101
  const LINUX_SLL := 113

  const ETHERTYPE_IPV4 := 0x0800
  const ETHERTYPE_IPV6 := 0x86DD
  const ETHERTYPE_VLAN := 0x8100

  const PROTO_UDP: byte := 17

  const FRAGMENT: byte := 44

  predicate IsExtensionHeader(kind: byte) {
    kind == 0 || kind == 43 || kind == FRAGMENT || kind == 60
  }
}
