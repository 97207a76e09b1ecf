/**
 * Which frames carry a UDP datagram, and which one, said over their bytes with the numbers written out
 * (IEEE 802.1Q; RFC 791; RFC 8200; RFC 768): decapsulation returns exactly these.
 */
module DecapReference {
  import opened Bytes
  import opened Wrappers
  import opened Net
  import opened Decap

  // ---------------------------------------------------------------- link layers

  /** An Ethernet frame with `n` VLAN tags. */
  predicate Tagged(frame: bytes, n: nat) {
    |frame| >= 14 + 4 * n && forall k :: 0 <= k < n ==> U16(frame, 12 + 4 * k) == 0x8100
  }

  /**
   * The frame carries `packet`, of type `ethertype`: behind at most two tags on Ethernet (link type 1), behind
   * the 16 bytes of Linux cooked capture (113), or as it is where there is no link layer (101).
   */
  ghost predicate LinkCarries(linkType: int, frame: bytes, ethertype: int, packet: bytes) {
    || (linkType == 1 && exists n :: CarriedBehind(frame, n, ethertype, packet))
    || (linkType == 113 && |frame| >= 16 && U16(frame, 14) == ethertype && packet == frame[16..])
    || (linkType == 101 && |frame| >= 1 && packet == frame
        && ((frame[0] / 16 == 4 && ethertype == 0x0800) || (frame[0] / 16 == 6 && ethertype == 0x86DD)))
  }

  predicate CarriedBehind(frame: bytes, n: int, ethertype: int, packet: bytes) {
    && 0 <= n <= 2 && Tagged(frame, n) && U16(frame, 12 + 4 * n) == ethertype
    && packet == frame[14 + 4 * n..] && (n < 2 ==> ethertype != 0x8100)
  }

  lemma TagsIff(frame: bytes, ethertype: int, packet: bytes)
    ensures Ethernet(frame) == Some(Carried(ethertype, packet))
            <==> exists n :: CarriedBehind(frame, n, ethertype, packet)
  {
    hide UnBE, U16;
    if |frame| >= 14 {
      TagTypes(frame);
      if U16(frame, 12) != 0x8100 {
        assert CarriedBehind(frame, 0, U16(frame, 12), frame[14..]);
      } else if |frame| >= 18 && U16(frame, 16) != 0x8100 {
        assert CarriedBehind(frame, 1, U16(frame, 16), frame[18..]);
      } else if |frame| >= 22 {
        assert CarriedBehind(frame, 2, U16(frame, 20), frame[22..]);
      }
    }
  }

  /** The walk over the tags, at the frame's own offsets. */
  lemma TagTypes(frame: bytes)
    requires |frame| >= 14
    ensures Ethernet(frame) ==
      if U16(frame, 12) != 0x8100 then Some(Carried(U16(frame, 12), frame[14..]))
      else if |frame| < 18 then None
      else if U16(frame, 16) != 0x8100 then Some(Carried(U16(frame, 16), frame[18..]))
      else if |frame| < 22 then None
      else Some(Carried(U16(frame, 20), frame[22..]))
  {
    hide UnBE;
    var rest := frame[14..];
    if |frame| >= 18 {
      assert rest[2..4] == frame[16..18] && rest[4..] == frame[18..];
      if |frame| >= 22 {
        assert frame[18..][2..4] == frame[20..22] && frame[18..][4..] == frame[22..];
      }
    }
  }

  lemma LinkIff(linkType: int, frame: bytes, ethertype: int, packet: bytes)
    ensures StripLink(linkType, frame) == Some(Carried(ethertype, packet))
            <==> LinkCarries(linkType, frame, ethertype, packet)
  {
    hide Ethernet, CarriedBehind, U16;
    TagsIff(frame, ethertype, packet);
  }

  // ---------------------------------------------------------------- UDP

  /** A datagram of `segment`; a length field that cannot be right is not believed. */
  predicate IsDatagram(segment: bytes, d: DecapsulatedUdp) {
    && |segment| >= 8 && d.srcPort == U16(segment, 0) && d.dstPort == U16(segment, 2)
    && d.payload == segment[8..if 8 <= U16(segment, 4) <= |segment| then U16(segment, 4) else |segment|]
  }

  lemma UdpIff(segment: bytes, d: DecapsulatedUdp)
    ensures DecapUdp(segment, d.src, d.dst) == Some(d) <==> IsDatagram(segment, d)
  {
    hide U16;
  }

  // ---------------------------------------------------------------- IPv4

  /** A UDP packet with a header of 20 bytes or more; a total length that cannot be right is not believed. */
  predicate Ipv4Carries(packet: bytes, d: DecapsulatedUdp, segment: bytes) {
    && |packet| >= 20 && packet[0] / 16 == 4 && packet[9] == 17
    && var header, total := packet[0] % 16 * 4, U16(packet, 2);
       && 20 <= header <= |packet|
       && segment == packet[header..if header <= total <= |packet| then total else |packet|]
       && d.src == V4(packet[12..16]) && d.dst == V4(packet[16..20])
  }

  lemma Ipv4Iff(packet: bytes, d: DecapsulatedUdp)
    ensures DecapIpv4(packet) == Some(d) <==> exists segment :: Ipv4Carries(packet, d, segment) && IsDatagram(segment, d)
  {
    hide U16, DecapUdp, IsDatagram;
    if |packet| >= 20 && packet[0] / 16 == 4 && 20 <= packet[0] % 16 * 4 <= |packet| && packet[9] == 17 {
      var header, total := packet[0] % 16 * 4, U16(packet, 2);
      var segment := packet[header..if header <= total <= |packet| then total else |packet|];
      UdpIff(segment, d);
      if DecapIpv4(packet) == Some(d) {
        UdpAddresses(segment, V4(packet[12..16]), V4(packet[16..20]));
        assert Ipv4Carries(packet, d, segment);
      }
    }
  }

  lemma UdpAddresses(segment: bytes, src: IpAddress, dst: IpAddress)
    ensures var r := DecapUdp(segment, src, dst); r.Some? ==> r.value.src == src && r.value.dst == dst
  {
  }

  // ---------------------------------------------------------------- IPv6

  /** A hop-by-hop (0), routing (43), fragment (44) or destination options (60) header, without its first byte. */
  datatype Extension = Extension(kind: byte, body: bytes)

  /** Fragment headers are 8 bytes, and the others as many groups of 8 as they say, not counting the first. */
  predicate IsExtension(h: Extension) {
    && (h.kind == 0 || h.kind == 43 || h.kind == 44 || h.kind == 60)
    && |h.body| >= 1
    && |h.body| + 1 == if h.kind == 44 then 8 else 8 * (h.body[0] as int + 1)
  }

  /** The headers one behind the other, each telling the kind of the next, and the last that UDP (17) follows. */
  function Chained(hs: seq<Extension>): bytes {
    if hs == [] then [] else [Kind(hs[1..])] + hs[0].body + Chained(hs[1..])
  }

  function Kind(hs: seq<Extension>): byte {
    if hs == [] then 17 else hs[0].kind
  }

  predicate AllExtensions(hs: seq<Extension>) {
    forall i :: 0 <= i < |hs| ==> IsExtension(hs[i])
  }

  ghost predicate IsChain(hs: seq<Extension>, limit: nat, kind: byte, data: bytes, segment: bytes) {
    |hs| <= limit && AllExtensions(hs) && Kind(hs) == kind && Chained(hs) + segment == data
  }

  lemma ExtensionIsSkipped(h: Extension, next: byte, rest: bytes, limit: nat)
    requires IsExtension(h) && limit > 0
    ensures SkipExtensions(h.kind, [next] + h.body + rest, limit) == SkipExtensions(next, rest, limit - 1)
  {
    var s := [next] + h.body + rest;
    assert s[1] == h.body[0];
    assert s[1 + |h.body|..] == rest;
  }

  lemma {:induction false} ChainIsWalked(hs: seq<Extension>, limit: nat, kind: byte, data: bytes, segment: bytes)
    requires IsChain(hs, limit, kind, data, segment)
    ensures SkipExtensions(kind, data, limit) == Some(Carried(17, segment))
    decreases |hs|
  {
    if hs == [] {
      assert [] + segment == segment;
    } else {
      hide SkipExtensions, IsExtension;
      var rest := Chained(hs[1..]) + segment;
      assert data == [Kind(hs[1..])] + hs[0].body + rest;
      ExtensionIsSkipped(hs[0], Kind(hs[1..]), rest, limit);
      ChainIsWalked(hs[1..], limit - 1, Kind(hs[1..]), rest, segment);
    }
  }

  /** The extension header at the start of `data`. */
  lemma ExtensionAt(kind: byte, data: bytes) returns (h: Extension)
    requires IsExtensionHeader(kind) && |data| >= 2 && |data| >= ExtLength(kind, data)
    ensures h.kind == kind && IsExtension(h)
    ensures ExtLength(kind, data) == 1 + |h.body| && data == [data[0]] + h.body + data[1 + |h.body|..]
  {
    h := Extension(kind, data[1..ExtLength(kind, data)]);
  }

  lemma {:induction false} WalkIsChain(limit: nat, kind: byte, data: bytes, segment: bytes) returns (hs: seq<Extension>)
    requires SkipExtensions(kind, data, limit) == Some(Carried(17, segment))
    ensures IsChain(hs, limit, kind, data, segment)
    decreases limit
  {
    if limit == 0 || !IsExtensionHeader(kind) {
      hs := [];
      assert [] + segment == segment;
    } else {
      var h := ExtensionAt(kind, data);
      hide IsExtension, IsChain, ExtLength;
      var more := WalkIsChain(limit - 1, data[0], data[1 + |h.body|..], segment);
      hs := [h] + more;
      ChainFront(h, more, limit - 1, data[0], data[1 + |h.body|..], segment);
    }
  }

  lemma ChainFront(h: Extension, hs: seq<Extension>, limit: nat, next: byte, rest: bytes, segment: bytes)
    requires IsExtension(h) && IsChain(hs, limit, next, rest, segment)
    ensures IsChain([h] + hs, limit + 1, h.kind, [next] + h.body + rest, segment)
  {
    hide IsExtension;
    assert ([h] + hs)[1..] == hs;
    assert Chained([h] + hs) + segment == [next] + h.body + (Chained(hs) + segment);
  }

  lemma WalkIff(limit: nat, kind: byte, data: bytes, segment: bytes)
    ensures SkipExtensions(kind, data, limit) == Some(Carried(17, segment))
            <==> exists hs :: IsChain(hs, limit, kind, data, segment)
  {
    hide SkipExtensions, IsChain;
    if SkipExtensions(kind, data, limit) == Some(Carried(17, segment)) {
      var hs := WalkIsChain(limit, kind, data, segment);
    }
    forall hs | IsChain(hs, limit, kind, data, segment)
      ensures SkipExtensions(kind, data, limit) == Some(Carried(17, segment))
    {
      ChainIsWalked(hs, limit, kind, data, segment);
    }
  }

  /** A UDP packet behind at most eight extension headers. */
  ghost predicate Ipv6Carries(packet: bytes, d: DecapsulatedUdp, segment: bytes) {
    && |packet| >= 40 && packet[0] / 16 == 6
    && (exists hs :: IsChain(hs, 8, packet[6], packet[40..], segment))
    && d.src == V6(packet[8..24]) && d.dst == V6(packet[24..40])
  }

  lemma Ipv6Iff(packet: bytes, d: DecapsulatedUdp)
    ensures Ipv6(packet) == Some(d) <==> exists segment :: Ipv6Carries(packet, d, segment) && IsDatagram(segment, d)
  {
    hide SkipExtensions, DecapUdp, IsDatagram, IsChain;
    if |packet| >= 40 && packet[0] / 16 == 6 {
      forall segment
        ensures SkipExtensions(packet[6], packet[40..], 8) == Some(Carried(17, segment))
                <==> exists hs :: IsChain(hs, 8, packet[6], packet[40..], segment)
        ensures DecapUdp(segment, d.src, d.dst) == Some(d) <==> IsDatagram(segment, d)
      {
        WalkIff(8, packet[6], packet[40..], segment);
        UdpIff(segment, d);
      }
      if Ipv6(packet) == Some(d) {
        var segment := SkipExtensions(packet[6], packet[40..], 8).value.data;
        UdpAddresses(segment, V6(packet[8..24]), V6(packet[24..40]));
        assert Ipv6Carries(packet, d, segment);
      }
    }
  }

  // ---------------------------------------------------------------- frames

  ghost predicate PacketCarries(ethertype: int, packet: bytes, d: DecapsulatedUdp) {
    || (ethertype == 0x0800 && exists segment :: Ipv4Carries(packet, d, segment) && IsDatagram(segment, d))
    || (ethertype == 0x86DD && exists segment :: Ipv6Carries(packet, d, segment) && IsDatagram(segment, d))
  }

  ghost predicate FrameCarries(linkType: int, frame: bytes, d: DecapsulatedUdp, ethertype: int, packet: bytes) {
    LinkCarries(linkType, frame, ethertype, packet) && PacketCarries(ethertype, packet, d)
  }

  /** Decapsulation returns a datagram exactly when the frame carries it, and else nothing. */
  lemma DecapsulatesIff(linkType: int, frame: bytes, d: DecapsulatedUdp)
    ensures Decapsulate(linkType, frame) == Some(d)
            <==> exists ethertype, packet :: FrameCarries(linkType, frame, d, ethertype, packet)
  {
    hide StripLink, DecapIpv4, Ipv6, LinkCarries, Ipv4Carries, Ipv6Carries, IsDatagram;
    forall ethertype, packet
      ensures StripLink(linkType, frame) == Some(Carried(ethertype, packet))
              <==> LinkCarries(linkType, frame, ethertype, packet)
    {
      LinkIff(linkType, frame, ethertype, packet);
    }
    if StripLink(linkType, frame).Some? {
      var Carried(ethertype, packet) := StripLink(linkType, frame).value;
      Ipv4Iff(packet, d);
      Ipv6Iff(packet, d);
      if Decapsulate(linkType, frame) == Some(d) {
        assert FrameCarries(linkType, frame, d, ethertype, packet);
      }
    }
  }

  /** A TCP segment is not taken for a datagram. */
  lemma TcpIsRefused(packet: bytes)
    requires |packet| >= 20 && packet[0] / 16 == 4 && packet[9] == 6
    ensures Decapsulate(101, packet) == None
  {
    hide U16;
  }
}
