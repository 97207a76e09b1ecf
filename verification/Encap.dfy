/** Wrapping a UDP payload into a link, IP and UDP frame (src/rtpkit/io/encap.py). */
module Encap {
  import opened Bytes
  import opened Wrappers
  import opened Net
  import opened Checksum

  const DUMMY_DST_MAC: bytes := [0, 0, 0, 0, 0, 1]
  const DUMMY_SRC_MAC: bytes := [0, 0, 0, 0, 0, 2]

  datatype EncapsulationError = EncapsulationError

  function UdpHeader(srcPort: u16, dstPort: u16, length: nat, checksum: nat): (s: bytes)
    ensures |s| == 8
  {
    BE(srcPort, 2) + BE(dstPort, 2) + BE(length, 2) + BE(checksum, 2)
  }

  function PseudoHeader(src: IpAddress, dst: IpAddress, length: nat): (s: bytes)
    requires src.V4? == dst.V4?
    ensures |s| % 2 == 0
  {
    if src.V4? then src.v4 + dst.v4 + [0, PROTO_UDP] + BE(length, 2)
    else src.v6 + dst.v6 + BE(length, 4) + [0, 0, 0, PROTO_UDP]
  }

  /** A computed checksum of 0 is sent as 0xFFFF, 0 meaning that there is none. */
  function UdpChecksum(src: IpAddress, dst: IpAddress, segment: bytes): (c: nat)
    requires src.V4? == dst.V4?
    ensures 0 < c <= 0xFFFF
  {
    var checksum := Checksum16Of(PseudoHeader(src, dst, |segment|) + segment);
    if checksum != 0 then checksum else 0xFFFF
  }

  function BuildUdp(src: IpAddress, dst: IpAddress, srcPort: u16, dstPort: u16, payload: bytes): (s: bytes)
    requires src.V4? == dst.V4?
    ensures |s| == 8 + |payload|
  {
    var length := 8 + |payload|;
    var checksum := UdpChecksum(src, dst, UdpHeader(srcPort, dstPort, length, 0) + payload);
    UdpHeader(srcPort, dstPort, length, checksum) + payload
  }

  function Ipv4Header(src: Ipv4Bytes, dst: Ipv4Bytes, totalLength: nat, checksum: nat): (s: bytes)
    ensures |s| == 20
  {
    [0x45, 0] + BE(totalLength, 2) + BE(0, 2) + BE(0, 2) + [64, PROTO_UDP] + BE(checksum, 2) + src + dst
  }

  function BuildIpv4(src: Ipv4Bytes, dst: Ipv4Bytes, segment: bytes): bytes {
    var header := Ipv4Header(src, dst, 20 + |segment|, 0);
    header[..10] + BE(Checksum16Of(header), 2) + header[12..] + segment
  }

  function BuildIpv6(src: Ipv6Bytes, dst: Ipv6Bytes, segment: bytes): bytes {
    BE(0x6000_0000, 4) + BE(|segment|, 2) + [PROTO_UDP, 64] + src + dst + segment
  }

  function MaxPayload(src: IpAddress): nat {
    if src.V4? then 0xFFFF - 20 - 8 else 0xFFFF - 8
  }

  function IpPacket(src: IpAddress, dst: IpAddress, srcPort: u16, dstPort: u16, payload: bytes): bytes
    requires src.V4? == dst.V4?
  {
    var segment := BuildUdp(src, dst, srcPort, dstPort, payload);
    if src.V4? then BuildIpv4(src.v4, dst.v4, segment) else BuildIpv6(src.v6, dst.v6, segment)
  }

  function EncapsulateUdp(linkType: int, src: IpAddress, dst: IpAddress, srcPort: int, dstPort: int, payload: bytes)
    : Result<bytes, EncapsulationError>
  {
    if src.V4? != dst.V4? || !Fits16(srcPort) || !Fits16(dstPort) || |payload| > MaxPayload(src) then
      Failure(EncapsulationError)
    else
      var packet := IpPacket(src, dst, srcPort, dstPort, payload);
      var ethertype := if src.V4? then ETHERTYPE_IPV4 else ETHERTYPE_IPV6;
      if linkType == EN10MB then Success(DUMMY_DST_MAC + DUMMY_SRC_MAC + BE(ethertype, 2) + packet)
      else if linkType == LINUX_SLL then
        Success(BE(0, 2) + BE(1, 2) + BE(0, 2) + Zeros(8) + BE(ethertype, 2) + packet)
      else if linkType == RAW then Success(packet)
      else Failure(EncapsulationError)
  }

  // ---------------------------------------------------------------- checksums of what is built

  lemma UdpHeaderSum(srcPort: u16, dstPort: u16, length: nat, checksum: nat)
    requires Fits16(checksum)
    ensures WordSum(UdpHeader(srcPort, dstPort, length, checksum))
            == WordSum(UdpHeader(srcPort, dstPort, length, 0)) + checksum
  {
    hide WordSum, BE;
    var ports := BE(srcPort, 2) + BE(dstPort, 2) + BE(length, 2);
    WordSumConcat(ports, BE(checksum, 2));
    WordSumConcat(ports, BE(0, 2));
    WordSumOfField(checksum);
    WordSumOfField(0);
  }

  /** Every UDP segment built, of any length, sums with its pseudo-header to 0xFFFF and carries a checksum. */
  lemma UdpChecksumVerifies(src: IpAddress, dst: IpAddress, srcPort: u16, dstPort: u16, payload: bytes)
    requires src.V4? == dst.V4?
    ensures var segment := BuildUdp(src, dst, srcPort, dstPort, payload);
            OnesSum(WordSum(PseudoHeader(src, dst, |segment|) + segment)) == 0xFFFF
            && U16(segment, 6) != 0
  {
    hide WordSum, BE, UnBE, OnesSum, PseudoHeader;
    var length := 8 + |payload|;
    var pseudo := PseudoHeader(src, dst, length);
    var blank := UdpHeader(srcPort, dstPort, length, 0);
    var checksum := UdpChecksum(src, dst, blank + payload);
    var header := UdpHeader(srcPort, dstPort, length, checksum);
    var segment := BuildUdp(src, dst, srcPort, dstPort, payload);
    UdpHeaderSum(srcPort, dstPort, length, checksum);
    WordSumConcat(pseudo, blank + payload);
    WordSumConcat(pseudo, header + payload);
    WordSumConcat(blank, payload);
    WordSumConcat(header, payload);
    var total := WordSum(pseudo + (blank + payload));
    ChecksumVerifies(total);
    assert WordSum(pseudo + segment) == total + checksum;
    assert segment[6..8] == BE(checksum, 2);
    Widths();
    UnpackPackBE(checksum, 2);
  }

  /** Every IPv4 header built sums to 0xFFFF. */
  lemma Ipv4ChecksumVerifies(src: Ipv4Bytes, dst: Ipv4Bytes, segment: bytes)
    ensures |BuildIpv4(src, dst, segment)| == 20 + |segment|
    ensures OnesSum(WordSum(BuildIpv4(src, dst, segment)[..20])) == 0xFFFF
  {
    hide WordSum, BE, OnesSum;
    var header := Ipv4Header(src, dst, 20 + |segment|, 0);
    var a, b, c := header[..10], BE(Checksum16Of(header), 2), header[12..];
    assert header[10..12] == BE(0, 2);
    assert header == a + BE(0, 2) + c;
    assert BuildIpv4(src, dst, segment)[..20] == a + b + c;
    WordSumConcat(a + BE(0, 2), c);
    WordSumConcat(a, BE(0, 2));
    WordSumConcat(a + b, c);
    WordSumConcat(a, b);
    WordSumOfField(0);
    WordSumOfField(Checksum16Of(header));
    ChecksumVerifies(WordSum(header));
  }

  lemma WordOf(s: bytes, at: nat, n: nat)
    requires at + 2 <= |s| && n < 0x1_0000 && s[at..at + 2] == BE(n, 2)
    ensures U16(s, at) == n
  {
    Widths();
    UnpackPackBE(n, 2);
  }

  /** The pseudo-headers of RFC 768 and section 8.1 of RFC 8200, which the checksum covers. */
  lemma PseudoHeaderFields(src: IpAddress, dst: IpAddress, length: u16)
    requires src.V4? == dst.V4?
    ensures var s := PseudoHeader(src, dst, length);
            if src.V4? then
              |s| == 12 && s[..4] == src.v4 && s[4..8] == dst.v4 && s[8] == 0 && s[9] == 17 && U16(s, 10) == length
            else
              && |s| == 40 && s[..16] == src.v6 && s[16..32] == dst.v6 && U32(s, 32) == length
              && s[36..] == [0, 0, 0, 17]
  {
    hide BE, UnBE;
    Widths();
    var s := PseudoHeader(src, dst, length);
    if src.V4? {
      assert s[10..12] == BE(length, 2);
      UnpackPackBE(length, 2);
    } else {
      assert s[32..36] == BE(length, 4);
      UnpackPackBE(length, 4);
    }
  }

  /** What stands in front of the packet: nothing, a cooked capture header, or two dummy addresses; and the type. */
  lemma LinkHeaders(linkType: int, src: IpAddress, dst: IpAddress, srcPort: u16, dstPort: u16, payload: bytes)
    requires EncapsulateUdp(linkType, src, dst, srcPort, dstPort, payload).Success?
    ensures var frame := EncapsulateUdp(linkType, src, dst, srcPort, dstPort, payload).value;
            var kind: bytes := if src.V4? then [0x08, 0x00] else [0x86, 0xDD];
            var header: bytes :=
              if linkType == 1 then [0, 0, 0, 0, 0, 1, 0, 0, 0, 0, 0, 2] + kind
              else if linkType == 113 then [0, 0, 0, 1, 0, 0, 0, 0, 0, 0, 0, 0, 0, 0] + kind
              else [];
            frame == header + IpPacket(src, dst, srcPort, dstPort, payload)
  {
    hide IpPacket, BE;
    LinkNumbers();
  }

  lemma LinkNumbers()
    ensures BE(0x0800, 2) == [0x08, 0x00] && BE(0x86DD, 2) == [0x86, 0xDD] && BE(0, 2) == [0, 0] && BE(1, 2) == [0, 1]
  {
  }

  /** The fields of a built segment; its length counts its bytes. */
  lemma UdpFields(src: IpAddress, dst: IpAddress, srcPort: u16, dstPort: u16, payload: bytes)
    requires src.V4? == dst.V4? && 8 + |payload| < 0x1_0000
    ensures var s := BuildUdp(src, dst, srcPort, dstPort, payload);
            U16(s, 0) == srcPort && U16(s, 2) == dstPort && U16(s, 4) == |s| && s[8..] == payload
  {
    hide BE, U16, UdpChecksum;
    var s := BuildUdp(src, dst, srcPort, dstPort, payload);
    WordOf(s, 0, srcPort);
    WordOf(s, 2, dstPort);
    WordOf(s, 4, |s|);
  }

  /** The fields of a built IPv4 packet: no options, no fragmentation, 64 hops, its length in all. */
  lemma Ipv4Fields(src: Ipv4Bytes, dst: Ipv4Bytes, segment: bytes)
    requires 20 + |segment| < 0x1_0000
    ensures var s := BuildIpv4(src, dst, segment);
            && s[0] == 0x45 && s[1] == 0 && U16(s, 2) == |s| && U16(s, 4) == 0 && U16(s, 6) == 0
            && s[8] == 64 && s[9] == PROTO_UDP && s[12..16] == src && s[16..20] == dst && s[20..] == segment
  {
    hide BE, U16, Checksum16Of, Ipv4Header;
    var header := Ipv4Header(src, dst, 20 + |segment|, 0);
    Ipv4HeaderParts(src, dst, 20 + |segment|);
    var s := BuildIpv4(src, dst, segment);
    assert s[..10] == header[..10] && s[12..20] == header[12..];
    SliceOfPrefix(s, 10, 2, 4);
    SliceOfPrefix(s, 10, 4, 6);
    SliceOfPrefix(s, 10, 6, 8);
    assert s[12..16] == header[12..][0..4] && s[16..20] == header[12..][4..8];
    WordOf(s, 2, |s|);
    WordOf(s, 4, 0);
    WordOf(s, 6, 0);
    assert s[0] == s[..10][0] && s[1] == s[..10][1] && s[8] == s[..10][8] && s[9] == s[..10][9];
  }

  lemma Ipv4HeaderParts(src: Ipv4Bytes, dst: Ipv4Bytes, totalLength: nat)
    ensures var header := Ipv4Header(src, dst, totalLength, 0);
            && header[..10] == [0x45, 0] + BE(totalLength, 2) + BE(0, 2) + BE(0, 2) + [64, PROTO_UDP]
            && header[12..] == src + dst
  {
    hide BE;
  }

  /** The fields of a built IPv6 packet: no class, no flow, 64 hops, the length of what follows the header. */
  lemma Ipv6Fields(src: Ipv6Bytes, dst: Ipv6Bytes, segment: bytes)
    requires |segment| < 0x1_0000
    ensures var s := BuildIpv6(src, dst, segment);
            && |s| == 40 + |segment| && s[..4] == [0x60, 0, 0, 0] && U16(s, 4) == |segment|
            && s[6] == PROTO_UDP && s[7] == 64 && s[8..24] == src && s[24..40] == dst && s[40..] == segment
  {
    hide BE, U16;
    FirstWord();
    WordOf(BuildIpv6(src, dst, segment), 4, |segment|);
  }

  lemma FirstWord()
    ensures BE(0x6000_0000, 4) == [0x60, 0, 0, 0]
  {
    assert BE(0x60_0000, 3) == [0x60, 0, 0];
  }

  /** Encapsulation succeeds exactly on the arguments its documentation allows. */
  lemma EncapsulateOutcome(linkType: int, src: IpAddress, dst: IpAddress, srcPort: int, dstPort: int, payload: bytes)
    ensures EncapsulateUdp(linkType, src, dst, srcPort, dstPort, payload).Success? <==>
      && linkType in {EN10MB, LINUX_SLL, RAW}
      && (src.V4? <==> dst.V4?)
      && 0 <= srcPort <= 0xFFFF && 0 <= dstPort <= 0xFFFF
      && |payload| + (if src.V4? then 28 else 8) <= 0xFFFF
  {
  }
}
