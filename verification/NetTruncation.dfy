/** Headers with options, and frames whose capture stopped early. */
module NetTruncation {
  import opened Bytes
  import opened Wrappers
  import opened Net
  import opened Encap
  import opened Decap
  import opened NetRoundTrip

  /** An IPv4 header of any length is skipped by its own count, options and all, and its total length is kept. */
  lemma Ipv4OptionsAreSkipped(header: bytes, segment: bytes, trailer: bytes)
    requires |header| >= 20 && header[0] / 16 == 4 && header[0] % 16 * 4 == |header|
    requires header[9] == PROTO_UDP && U16(header, 2) == |header| + |segment|
    ensures DecapIpv4(header + segment + trailer) == DecapUdp(segment, V4(header[12..16]), V4(header[16..20]))
  {
    hide UnBE, DecapUdp;
    var data := header + segment + trailer;
    assert data[2..4] == header[2..4] && data[12..16] == header[12..16] && data[16..20] == header[16..20];
    assert data[|header|..|header| + |segment|] == segment;
  }

  /** A segment cut after `n` bytes gives the payload cut there, once its header is whole. */
  lemma UdpTruncated(src: IpAddress, dst: IpAddress, srcPort: u16, dstPort: u16, payload: bytes, n: nat)
    requires src.V4? == dst.V4? && 8 + |payload| <= 0xFFFF && n <= 8 + |payload|
    ensures DecapUdp(BuildUdp(src, dst, srcPort, dstPort, payload)[..n], src, dst)
            == if n < 8 then None
               else Some(DecapsulatedUdp(src, dst, srcPort, dstPort, payload[..n - 8]))
  {
    hide BE, UnBE, UdpChecksum;
    var segment := BuildUdp(src, dst, srcPort, dstPort, payload);
    if n >= 8 {
      var data := segment[..n];
      SliceOfPrefix(segment, n, 0, 2);
      SliceOfPrefix(segment, n, 2, 4);
      SliceOfPrefix(segment, n, 4, 6);
      assert segment[0..2] == BE(srcPort, 2) && segment[2..4] == BE(dstPort, 2);
      assert segment[4..6] == BE(8 + |payload|, 2);
      WordOf(data, 0, srcPort);
      WordOf(data, 2, dstPort);
      WordOf(data, 4, 8 + |payload|);
      assert data[8..n] == payload[..n - 8];
    }
  }

  /** The bytes of an IP header the builder writes. */
  function IpHeaderSize(src: IpAddress): nat {
    if src.V4? then 20 else 40
  }

  function DecapIp(src: IpAddress, packet: bytes): Option<DecapsulatedUdp> {
    if src.V4? then DecapIpv4(packet) else Ipv6(packet)
  }

  lemma PacketTruncated(src: IpAddress, dst: IpAddress, srcPort: u16, dstPort: u16, payload: bytes, n: nat)
    requires src.V4? == dst.V4? && |payload| <= MaxPayload(src)
    ensures var packet := IpPacket(src, dst, srcPort, dstPort, payload);
            var start := IpHeaderSize(src) + 8;
            |packet| == start + |payload|
            && (n <= |packet| ==>
                DecapIp(src, packet[..n]) == if n < start then None
                  else Some(DecapsulatedUdp(src, dst, srcPort, dstPort, payload[..n - start])))
  {
    hide BE, UnBE, DecapUdp, BuildUdp, BuildIpv4, BuildIpv6;
    var segment := BuildUdp(src, dst, srcPort, dstPort, payload);
    var packet := IpPacket(src, dst, srcPort, dstPort, payload);
    var size := IpHeaderSize(src);
    if src.V4? { Ipv4Layout(src.v4, dst.v4, segment); } else { Ipv6Layout(src.v6, dst.v6, segment); }
    if size <= n <= |packet| {
      var data := packet[..n];
      assert data[size..n] == packet[size..][..n - size] == segment[..n - size];
      UdpTruncated(src, dst, srcPort, dstPort, payload, n - size);
      if src.V4? {
        assert data[2..4] == packet[2..4] && data[12..16] == packet[12..16] && data[16..20] == packet[16..20];
        WordOf(data, 2, 28 + |payload|);
      } else {
        assert data[8..24] == packet[8..24] && data[24..40] == packet[24..40];
        assert data[40..] == data[size..n];
      }
    }
  }

  /**
   * A frame whose capture stopped after `n` bytes gives the payload as far as it was captured, and
   * nothing when it stopped inside the headers.
   */
  lemma TruncationGivesPrefix(linkType: int, src: IpAddress, dst: IpAddress, srcPort: u16, dstPort: u16,
                              payload: bytes, n: nat)
    requires EncapsulateUdp(linkType, src, dst, srcPort, dstPort, payload).Success?
    ensures var frame := EncapsulateUdp(linkType, src, dst, srcPort, dstPort, payload).value;
            var start := LinkSize(linkType) + IpHeaderSize(src) + 8;
            |frame| == start + |payload|
            && (n <= |frame| ==>
                Decapsulate(linkType, frame[..n]) == if n < start then None
                  else Some(DecapsulatedUdp(src, dst, srcPort, dstPort, payload[..n - start])))
  {
    hide BE, UnBE, IpPacket, DecapIpv4, Ipv6, EncapsulateUdp, StripLink;
    EncapsulateOutcome(linkType, src, dst, srcPort, dstPort, payload);
    LinkLayout(linkType, src, dst, srcPort, dstPort, payload);
    var frame := EncapsulateUdp(linkType, src, dst, srcPort, dstPort, payload).value;
    var packet := IpPacket(src, dst, srcPort, dstPort, payload);
    var size := LinkSize(linkType);
    var ethertype := if src.V4? then ETHERTYPE_IPV4 else ETHERTYPE_IPV6;
    PacketTruncated(src, dst, srcPort, dstPort, payload, if n < size then 0 else n - size);
    if n <= |frame| {
      LinkTruncated(linkType, frame, packet, ethertype, n);
    }
  }

  lemma LinkLayout(linkType: int, src: IpAddress, dst: IpAddress, srcPort: u16, dstPort: u16, payload: bytes)
    requires EncapsulateUdp(linkType, src, dst, srcPort, dstPort, payload).Success?
    ensures var frame := EncapsulateUdp(linkType, src, dst, srcPort, dstPort, payload).value;
            var packet := IpPacket(src, dst, srcPort, dstPort, payload);
            var ethertype := if src.V4? then ETHERTYPE_IPV4 else ETHERTYPE_IPV6;
            var size := LinkSize(linkType);
            && |frame| >= size && frame[size..] == packet
            && (size > 0 ==> frame[size - 2..size] == BE(ethertype, 2))
            && packet != [] && packet[0] / 16 == if src.V4? then 4 else 6
  {
    hide BE, BuildUdp, BuildIpv4, BuildIpv6;
    var segment := BuildUdp(src, dst, srcPort, dstPort, payload);
    if src.V4? { Ipv4Layout(src.v4, dst.v4, segment); } else { Ipv6Layout(src.v6, dst.v6, segment); }
  }

  lemma LinkTruncated(linkType: int, frame: bytes, packet: bytes, ethertype: u16, n: nat)
    requires linkType in {EN10MB, LINUX_SLL, RAW} && ethertype in {ETHERTYPE_IPV4, ETHERTYPE_IPV6}
    requires var size := LinkSize(linkType);
             && size <= |frame| && frame[size..] == packet
             && (size > 0 ==> frame[size - 2..size] == BE(ethertype, 2))
    requires packet != [] && packet[0] / 16 == if ethertype == ETHERTYPE_IPV4 then 4 else 6
    requires n <= |frame|
    ensures var size := LinkSize(linkType);
            StripLink(linkType, frame[..n])
            == if n < size || n == 0 then None else Some(Carried(ethertype, packet[..n - size]))
  {
    hide BE, UnBE;
    var size := LinkSize(linkType);
    if n >= size {
      var data := frame[..n];
      assert data[size..] == packet[..n - size];
      if size > 0 {
        assert data[size - 2..size] == BE(ethertype, 2);
        WordOf(data, size - 2, ethertype);
      } else {
        assert data == packet[..n];
      }
    }
  }
}
