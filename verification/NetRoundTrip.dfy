/**
 * Decapsulating what was encapsulated returns it, and still does behind VLAN tags, in front of IPv6
 * extension headers and before trailing bytes, exactly as long as the two walks' bounds are kept.
 */
module NetRoundTrip {
  import opened Bytes
  import opened Wrappers
  import opened Net
  import opened Checksum
  import opened Encap
  import opened Decap

  // ---------------------------------------------------------------- the noise

  /** An 802.1Q tag: two bytes of control information before the type that follows. */
  type Tci = s: bytes | |s| == 2 witness [0, 0]

  function Tags(tcis: seq<Tci>): (s: bytes)
    ensures |s| == 4 * |tcis|
  {
    if tcis == [] then [] else BE(ETHERTYPE_VLAN, 2) + tcis[0] + Tags(tcis[1..])
  }

  /** An IPv6 extension header, all but the type of the header that follows it. */
  datatype ExtHeader = ExtHeader(kind: byte, body: bytes)

  /** Fragment headers are 8 bytes; the others count their 8-byte units after the first. */
  predicate WellFormed(h: ExtHeader) {
    && IsExtensionHeader(h.kind)
    && if h.kind == FRAGMENT then |h.body| == 7
       else |h.body| >= 7 && |h.body| + 1 == (h.body[0] as int + 1) * 8
  }

  function FirstKind(hs: seq<ExtHeader>, proto: byte): byte {
    if hs == [] then proto else hs[0].kind
  }

  function Chain(hs: seq<ExtHeader>, proto: byte): bytes {
    if hs == [] then [] else [FirstKind(hs[1..], proto)] + hs[0].body + Chain(hs[1..], proto)
  }

  type LengthField = s: bytes | |s| == 2 witness [0, 0]

  /** An IPv6 packet with `hs` between its header and what it carried, and `length` for its payload length. */
  function WithExtensions(packet: bytes, length: LengthField, hs: seq<ExtHeader>): bytes
    requires |packet| >= 40
  {
    packet[..4] + length + [FirstKind(hs, packet[6])] + packet[7..40] + Chain(hs, packet[6]) + packet[40..]
  }

  function LinkSize(linkType: int): nat {
    if linkType == EN10MB then 14 else if linkType == LINUX_SLL then 16 else 0
  }

  /** A frame after tagging, header insertion and capture of bytes beyond its end. */
  function Noisy(linkType: int, frame: bytes, tcis: seq<Tci>, length: LengthField, hs: seq<ExtHeader>,
                 trailer: bytes): bytes
    requires |frame| >= LinkSize(linkType) + if hs == [] then 0 else 40
  {
    var n := LinkSize(linkType);
    var packet := if hs == [] then frame[n..] else WithExtensions(frame[n..], length, hs);
    var link := if linkType == EN10MB then frame[..12] + Tags(tcis) + frame[12..14] else frame[..n];
    link + packet + trailer
  }

  // ---------------------------------------------------------------- UDP and IP

  lemma UdpRoundTrip(src: IpAddress, dst: IpAddress, srcPort: u16, dstPort: u16, payload: bytes, trailer: bytes)
    requires src.V4? == dst.V4? && 8 + |payload| <= 0xFFFF
    ensures DecapUdp(BuildUdp(src, dst, srcPort, dstPort, payload) + trailer, src, dst)
            == Some(DecapsulatedUdp(src, dst, srcPort, dstPort, payload))
  {
    hide BE, UnBE, UdpChecksum;
    var data := BuildUdp(src, dst, srcPort, dstPort, payload) + trailer;
    WordOf(data, 0, srcPort);
    WordOf(data, 2, dstPort);
    WordOf(data, 4, 8 + |payload|);
    assert data[8..8 + |payload|] == payload;
  }

  lemma Ipv4RoundTrip(src: Ipv4Bytes, dst: Ipv4Bytes, srcPort: u16, dstPort: u16, payload: bytes, trailer: bytes)
    requires 28 + |payload| <= 0xFFFF
    ensures DecapIpv4(IpPacket(V4(src), V4(dst), srcPort, dstPort, payload) + trailer)
            == Some(DecapsulatedUdp(V4(src), V4(dst), srcPort, dstPort, payload))
  {
    hide BE, UnBE, DecapUdp, BuildUdp, Checksum16Of;
    var segment := BuildUdp(V4(src), V4(dst), srcPort, dstPort, payload);
    var packet := BuildIpv4(src, dst, segment);
    var data := packet + trailer;
    Ipv4Layout(src, dst, segment);
    assert data[2..4] == packet[2..4] && data[12..16] == packet[12..16] && data[16..20] == packet[16..20];
    WordOf(data, 2, 28 + |payload|);
    assert data[20..28 + |payload|] == segment;
    UdpRoundTrip(V4(src), V4(dst), srcPort, dstPort, payload, []);
    assert segment + [] == segment;
  }

  lemma Ipv4Layout(src: Ipv4Bytes, dst: Ipv4Bytes, segment: bytes)
    ensures var packet := BuildIpv4(src, dst, segment);
            && |packet| == 20 + |segment| && packet[0] == 0x45 && packet[9] == PROTO_UDP
            && packet[2..4] == BE(20 + |segment|, 2)
            && packet[12..16] == src && packet[16..20] == dst && packet[20..] == segment
  {
    hide BE, Checksum16Of;
    var header := Ipv4Header(src, dst, 20 + |segment|, 0);
    assert header[2..4] == BE(20 + |segment|, 2) && header[12..16] == src && header[16..20] == dst;
    assert BuildIpv4(src, dst, segment)[2..4] == header[2..4];
  }

  lemma Ipv6Layout(src: Ipv6Bytes, dst: Ipv6Bytes, segment: bytes)
    ensures var packet := BuildIpv6(src, dst, segment);
            && |packet| == 40 + |segment| && packet[0] == 0x60 && packet[6] == PROTO_UDP
            && packet[8..24] == src && packet[24..40] == dst && packet[40..] == segment
  {
    assert BE(0x6000_0000, 4)[0] == 0x60;
    hide BE;
  }

  // ---------------------------------------------------------------- the walks

  /** A chain of well-formed extension headers is skipped whole, or up to the bound. */
  lemma {:induction false} ChainIsSkipped(hs: seq<ExtHeader>, proto: byte, rest: bytes, left: nat)
    requires forall i :: 0 <= i < |hs| ==> WellFormed(hs[i])
    requires !IsExtensionHeader(proto)
    ensures |hs| <= left ==>
      SkipExtensions(FirstKind(hs, proto), Chain(hs, proto) + rest, left) == Some(Carried(proto, rest))
    ensures |hs| > left ==>
      var r := SkipExtensions(FirstKind(hs, proto), Chain(hs, proto) + rest, left);
      r.Some? && r.value.kind == hs[left].kind
  {
    if hs == [] {
      assert [] + rest == rest;
    } else if left > 0 {
      var h, more := hs[0], Chain(hs[1..], proto) + rest;
      var data := Chain(hs, proto) + rest;
      assert WellFormed(h);
      assert data == [FirstKind(hs[1..], proto)] + h.body + more;
      assert data[1] == h.body[0];
      assert ExtLength(h.kind, data) == 1 + |h.body|;
      assert data[1 + |h.body|..] == more;
      ChainIsSkipped(hs[1..], proto, rest, left - 1);
    }
  }

  /** VLAN tags are stripped whole, or up to the bound. */
  lemma {:induction false} TagsAreStripped(tcis: seq<Tci>, ethertype: u16, rest: bytes, left: nat)
    requires ethertype != ETHERTYPE_VLAN
    ensures var s := Tags(tcis) + BE(ethertype, 2) + rest;
            |tcis| <= left ==> Untag(U16(s, 0), s[2..], left) == Some(Carried(ethertype, rest))
    ensures var s := Tags(tcis) + BE(ethertype, 2) + rest;
            |tcis| > left ==> Untag(U16(s, 0), s[2..], left).Some?
                              && Untag(U16(s, 0), s[2..], left).value.kind == ETHERTYPE_VLAN
  {
    hide UnBE, BE;
    var s := Tags(tcis) + BE(ethertype, 2) + rest;
    if tcis == [] {
      assert s[0..2] == BE(ethertype, 2);
      WordOf(s, 0, ethertype);
      assert s[2..] == rest;
    } else {
      var more := Tags(tcis[1..]) + BE(ethertype, 2) + rest;
      assert s == BE(ETHERTYPE_VLAN, 2) + tcis[0] + more;
      assert s[0..2] == BE(ETHERTYPE_VLAN, 2);
      WordOf(s, 0, ETHERTYPE_VLAN);
      if left > 0 {
        assert s[2..][2..4] == more[0..2];
        assert s[2..][4..] == more[2..];
        TagsAreStripped(tcis[1..], ethertype, rest, left - 1);
      }
    }
  }

  lemma Ipv6RoundTrip(src: Ipv6Bytes, dst: Ipv6Bytes, srcPort: u16, dstPort: u16, payload: bytes,
                      length: LengthField, hs: seq<ExtHeader>, trailer: bytes)
    requires 8 + |payload| <= 0xFFFF
    requires forall i :: 0 <= i < |hs| ==> WellFormed(hs[i])
    ensures var packet := IpPacket(V6(src), V6(dst), srcPort, dstPort, payload);
            |packet| >= 40
            && Ipv6(WithExtensions(packet, length, hs) + trailer)
            == if |hs| <= MAX_EXT_HEADERS
               then Some(DecapsulatedUdp(V6(src), V6(dst), srcPort, dstPort, payload)) else None
  {
    hide BE, UnBE, DecapUdp, BuildUdp, WellFormed, SkipExtensions, Chain, BuildIpv6;
    var segment := BuildUdp(V6(src), V6(dst), srcPort, dstPort, payload);
    var packet := BuildIpv6(src, dst, segment);
    Ipv6Layout(src, dst, segment);
    var data := WithExtensions(packet, length, hs) + trailer;
    assert data[8..24] == packet[8..24] && data[24..40] == packet[24..40];
    assert data[40..] == Chain(hs, PROTO_UDP) + (segment + trailer);
    ChainIsSkipped(hs, PROTO_UDP, segment + trailer, MAX_EXT_HEADERS);
    UdpRoundTrip(V6(src), V6(dst), srcPort, dstPort, payload, trailer);
    if |hs| > MAX_EXT_HEADERS {
      WellFormedKind(hs[MAX_EXT_HEADERS]);
    }
  }

  lemma WellFormedKind(h: ExtHeader)
    requires WellFormed(h)
    ensures h.kind != PROTO_UDP
  {
  }

  // ---------------------------------------------------------------- whole frames

  /** The arguments of a frame with noise: tags only on Ethernet, extension headers only on IPv6. */
  ghost predicate NoiseApplies(linkType: int, src: IpAddress, tcis: seq<Tci>, hs: seq<ExtHeader>) {
    && (linkType != EN10MB ==> tcis == [])
    && (src.V4? ==> hs == [])
    && forall i :: 0 <= i < |hs| ==> WellFormed(hs[i])
  }

  /** The IP packet inside a noisy frame. */
  function NoisyPacket(src: IpAddress, dst: IpAddress, srcPort: u16, dstPort: u16, payload: bytes,
                       length: LengthField, hs: seq<ExtHeader>): bytes
    requires src.V4? == dst.V4?
  {
    var packet := IpPacket(src, dst, srcPort, dstPort, payload);
    if hs == [] || |packet| < 40 then packet else WithExtensions(packet, length, hs)
  }

  lemma PacketRoundTrip(src: IpAddress, dst: IpAddress, srcPort: u16, dstPort: u16, payload: bytes,
                        length: LengthField, hs: seq<ExtHeader>, trailer: bytes)
    requires src.V4? == dst.V4? && |payload| <= MaxPayload(src)
    requires NoiseApplies(EN10MB, src, [], hs)
    ensures var data := NoisyPacket(src, dst, srcPort, dstPort, payload, length, hs) + trailer;
            var r := if src.V4? then DecapIpv4(data) else Ipv6(data);
            r == if |hs| <= MAX_EXT_HEADERS
                 then Some(DecapsulatedUdp(src, dst, srcPort, dstPort, payload)) else None
    ensures var packet := NoisyPacket(src, dst, srcPort, dstPort, payload, length, hs);
            |packet| > 0 && packet[0] / 16 == if src.V4? then 4 else 6
  {
    hide WellFormed, Chain, Tags, SkipExtensions, BE, UnBE, DecapIpv4, Ipv6, BuildUdp;
    var segment := BuildUdp(src, dst, srcPort, dstPort, payload);
    if src.V4? {
      Ipv4RoundTrip(src.v4, dst.v4, srcPort, dstPort, payload, trailer);
      Ipv4Layout(src.v4, dst.v4, segment);
    } else {
      var built := IpPacket(src, dst, srcPort, dstPort, payload)[4..6];
      Ipv6RoundTrip(src.v6, dst.v6, srcPort, dstPort, payload, if hs == [] then built else length, hs, trailer);
      Ipv6Layout(src.v6, dst.v6, segment);
      if hs == [] { NothingInserted(IpPacket(src, dst, srcPort, dstPort, payload)); }
    }
  }

  lemma NothingInserted(packet: bytes)
    requires |packet| >= 40
    ensures WithExtensions(packet, packet[4..6], []) == packet
  {
  }

  /** Among the length fields is the right one, which counts the extension headers. */
  lemma LengthCanCount(packet: bytes, hs: seq<ExtHeader>)
    requires |packet| >= 40 && |packet| - 40 + |Chain(hs, packet[6])| <= 0xFFFF
    ensures var length := BE(|packet| - 40 + |Chain(hs, packet[6])|, 2);
            var p := WithExtensions(packet, length, hs);
            U16(p, 4) == |p| - 40
  {
    hide BE, U16, Chain;
    var n := |packet| - 40 + |Chain(hs, packet[6])|;
    WordOf(WithExtensions(packet, BE(n, 2), hs), 4, n);
  }

  lemma LinkRoundTrip(linkType: int, ethertype: u16, tcis: seq<Tci>, packet: bytes, frame: bytes)
    requires linkType == EN10MB || linkType == LINUX_SLL
    requires linkType == LINUX_SLL ==> tcis == []
    requires ethertype != ETHERTYPE_VLAN
    requires linkType == EN10MB ==>
      frame == DUMMY_DST_MAC + DUMMY_SRC_MAC + Tags(tcis) + BE(ethertype, 2) + packet
    requires linkType == LINUX_SLL ==>
      frame == BE(0, 2) + BE(1, 2) + BE(0, 2) + Zeros(8) + BE(ethertype, 2) + packet
    ensures |tcis| <= MAX_VLAN_TAGS ==> StripLink(linkType, frame) == Some(Carried(ethertype, packet))
    ensures |tcis| > MAX_VLAN_TAGS ==>
      StripLink(linkType, frame).Some? && StripLink(linkType, frame).value.kind == ETHERTYPE_VLAN
  {
    hide BE, UnBE, Tags, Untag;
    if linkType == EN10MB {
      var s := Tags(tcis) + BE(ethertype, 2) + packet;
      assert frame == DUMMY_DST_MAC + DUMMY_SRC_MAC + s;
      assert frame[12..14] == s[0..2] && frame[14..] == s[2..];
      TagsAreStripped(tcis, ethertype, packet, MAX_VLAN_TAGS);
    } else {
      assert frame[14..16] == BE(ethertype, 2) && frame[16..] == packet;
      WordOf(frame, 14, ethertype);
    }
  }

  lemma FrameLayout(linkType: int, src: IpAddress, dst: IpAddress, srcPort: u16, dstPort: u16, payload: bytes,
                    tcis: seq<Tci>, length: LengthField, hs: seq<ExtHeader>, trailer: bytes)
    requires EncapsulateUdp(linkType, src, dst, srcPort, dstPort, payload).Success?
    requires NoiseApplies(linkType, src, tcis, hs)
    ensures var frame := EncapsulateUdp(linkType, src, dst, srcPort, dstPort, payload).value;
            var packet := NoisyPacket(src, dst, srcPort, dstPort, payload, length, hs) + trailer;
            var ethertype := if src.V4? then ETHERTYPE_IPV4 else ETHERTYPE_IPV6;
            && |frame| >= LinkSize(linkType) + (if hs == [] then 0 else 40)
            && Noisy(linkType, frame, tcis, length, hs, trailer) ==
               if linkType == EN10MB then DUMMY_DST_MAC + DUMMY_SRC_MAC + Tags(tcis) + BE(ethertype, 2) + packet
               else if linkType == LINUX_SLL then
                 BE(0, 2) + BE(1, 2) + BE(0, 2) + Zeros(8) + BE(ethertype, 2) + packet
               else packet
  {
    hide BE, Tags, WithExtensions, IpPacket, WellFormed;
    var frame := EncapsulateUdp(linkType, src, dst, srcPort, dstPort, payload).value;
    var packet := IpPacket(src, dst, srcPort, dstPort, payload);
    var n := LinkSize(linkType);
    if src.V6? { Ipv6PacketSize(src.v6, dst.v6, srcPort, dstPort, payload); }
    assert frame[n..] == packet;
    if linkType == EN10MB { assert frame[..12] == DUMMY_DST_MAC + DUMMY_SRC_MAC; }
  }

  lemma Ipv6PacketSize(src: Ipv6Bytes, dst: Ipv6Bytes, srcPort: u16, dstPort: u16, payload: bytes)
    ensures |IpPacket(V6(src), V6(dst), srcPort, dstPort, payload)| >= 40
  {
    Ipv6Layout(src, dst, BuildUdp(V6(src), V6(dst), srcPort, dstPort, payload));
  }

  /**
   * The round trip under noise. For every link type and IP version, an encapsulated payload comes back
   * with its addresses and ports behind any VLAN tags and extension headers and before any trailing
   * bytes, exactly when there are at most two tags and eight headers. Where headers are inserted, the IPv6
   * payload length may be any: the one that counts them, or a wrong one.
   */
  lemma EncapsulationRoundTrip(linkType: int, src: IpAddress, dst: IpAddress, srcPort: u16, dstPort: u16,
                               payload: bytes, tcis: seq<Tci>, length: LengthField, hs: seq<ExtHeader>, trailer: bytes)
    requires EncapsulateUdp(linkType, src, dst, srcPort, dstPort, payload).Success?
    requires NoiseApplies(linkType, src, tcis, hs)
    ensures var frame := EncapsulateUdp(linkType, src, dst, srcPort, dstPort, payload).value;
            |frame| >= LinkSize(linkType) + (if hs == [] then 0 else 40)
            && Decapsulate(linkType, Noisy(linkType, frame, tcis, length, hs, trailer))
               == if |tcis| <= MAX_VLAN_TAGS && |hs| <= MAX_EXT_HEADERS
                  then Some(DecapsulatedUdp(src, dst, srcPort, dstPort, payload)) else None
  {
    hide BE, Tags, Noisy, NoisyPacket, DecapIpv4, Ipv6, WellFormed, IpPacket, StripLink, EncapsulateUdp;
    EncapsulateOutcome(linkType, src, dst, srcPort, dstPort, payload);
    FrameLayout(linkType, src, dst, srcPort, dstPort, payload, tcis, length, hs, trailer);
    PacketRoundTrip(src, dst, srcPort, dstPort, payload, length, hs, trailer);
    var frame := EncapsulateUdp(linkType, src, dst, srcPort, dstPort, payload).value;
    var packet := NoisyPacket(src, dst, srcPort, dstPort, payload, length, hs) + trailer;
    var ethertype := if src.V4? then ETHERTYPE_IPV4 else ETHERTYPE_IPV6;
    if linkType == RAW {
      RawIsTyped(packet);
    } else {
      LinkRoundTrip(linkType, ethertype, tcis, packet, Noisy(linkType, frame, tcis, length, hs, trailer));
    }
  }

  lemma RawIsTyped(packet: bytes)
    requires packet != []
    ensures packet[0] / 16 == 4 ==> StripLink(RAW, packet) == Some(Carried(ETHERTYPE_IPV4, packet))
    ensures packet[0] / 16 == 6 ==> StripLink(RAW, packet) == Some(Carried(ETHERTYPE_IPV6, packet))
  {
  }
}
