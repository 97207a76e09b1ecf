/** Stripping link, IP and UDP layers off a captured frame (src/rtpkit/io/decap.py). */
module Decap {
  import opened Bytes
  import opened Wrappers
  import opened Net

  const MAX_VLAN_TAGS := 2
  const MAX_EXT_HEADERS := 8

  /** What a layer carries and the type of it. */
  datatype Carried = Carried(kind: int, data: bytes)

  /** At most `left` VLAN tags stripped from in front of `rest`, whose type is `ethertype`. */
  function Untag(ethertype: int, rest: bytes, left: nat): Option<Carried>
    decreases left
  {
    if left == 0 || ethertype != ETHERTYPE_VLAN then Some(Carried(ethertype, rest))
    else if |rest| < 4 then None
    else Untag(U16(rest, 2), rest[4..], left - 1)
  }

  function Ethernet(frame: bytes): Option<Carried> {
    if |frame| < 14 then None else Untag(U16(frame, 12), frame[14..], MAX_VLAN_TAGS)
  }

  method StripEthernet(frame: bytes) returns (r: Option<Carried>)
    ensures r == Ethernet(frame)
  {
    if |frame| < 14 {
      return None;
    }
    var ethertype := U16(frame, 12);
    var offset := 14;
    for i := 0 to MAX_VLAN_TAGS
      invariant 14 <= offset <= |frame|
      invariant Ethernet(frame) == Untag(ethertype, frame[offset..], MAX_VLAN_TAGS - i)
    {
      if ethertype != ETHERTYPE_VLAN {
        break;
      }
      if |frame| < offset + 4 {
        return None;
      }
      assert frame[offset..][2..4] == frame[offset + 2..offset + 4];
      assert frame[offset..][4..] == frame[offset + 4..];
      ethertype := U16(frame, offset + 2);
      offset := offset + 4;
    }
    return Some(Carried(ethertype, frame[offset..]));
  }

  function StripSll(frame: bytes): Option<Carried> {
    if |frame| < 16 then None else Some(Carried(U16(frame, 14), frame[16..]))
  }

  function StripRaw(frame: bytes): Option<Carried> {
    if |frame| < 1 then None
    else if frame[0] / 16 == 4 then Some(Carried(ETHERTYPE_IPV4, frame))
    else if frame[0] / 16 == 6 then Some(Carried(ETHERTYPE_IPV6, frame))
    else None
  }

  function StripLink(linkType: int, frame: bytes): Option<Carried> {
    if linkType == EN10MB then Ethernet(frame)
    else if linkType == LINUX_SLL then StripSll(frame)
    else if linkType == RAW then StripRaw(frame)
    else None
  }

  function DecapUdp(data: bytes, src: IpAddress, dst: IpAddress): Option<DecapsulatedUdp> {
    if |data| < 8 then None else
      var length := U16(data, 4);
      var end := if 8 <= length <= |data| then length else |data|;
      Some(DecapsulatedUdp(src, dst, U16(data, 0), U16(data, 2), data[8..end]))
  }

  function DecapIpv4(data: bytes): Option<DecapsulatedUdp> {
    if |data| < 20 || data[0] / 16 != 4 then None else
      var headerLen := data[0] % 16 * 4;
      if headerLen < 20 || headerLen > |data| || data[9] != PROTO_UDP then None else
        var totalLength := U16(data, 2);
        var end := if headerLen <= totalLength <= |data| then totalLength else |data|;
        DecapUdp(data[headerLen..end], V4(data[12..16]), V4(data[16..20]))
  }

  /** The length an extension header declares for itself. */
  function ExtLength(kind: byte, rest: bytes): (n: nat)
    requires |rest| >= 2
    ensures n >= 8
  {
    if kind == FRAGMENT then 8 else (rest[1] as int + 1) * 8
  }

  /** At most `left` extension headers skipped from in front of `rest`, whose type is `kind`. */
  function SkipExtensions(kind: byte, rest: bytes, left: nat): Option<Carried>
    decreases left
  {
    if left == 0 || !IsExtensionHeader(kind) then Some(Carried(kind, rest))
    else if |rest| < 2 || |rest| < ExtLength(kind, rest) then None
    else SkipExtensions(rest[0], rest[ExtLength(kind, rest)..], left - 1)
  }

  function Ipv6(data: bytes): Option<DecapsulatedUdp> {
    if |data| < 40 || data[0] / 16 != 6 then None else
      match SkipExtensions(data[6], data[40..], MAX_EXT_HEADERS)
      case None => None
      case Some(Carried(kind, rest)) =>
        if kind != PROTO_UDP then None else DecapUdp(rest, V6(data[8..24]), V6(data[24..40]))
  }

  method DecapIpv6(data: bytes) returns (r: Option<DecapsulatedUdp>)
    ensures r == Ipv6(data)
  {
    hide DecapUdp;
    if |data| < 40 || data[0] / 16 != 6 {
      return None;
    }
    var nextHeader := data[6];
    var src, dst := V6(data[8..24]), V6(data[24..40]);
    var offset := 40;
    for i := 0 to MAX_EXT_HEADERS
      invariant 40 <= offset <= |data|
      invariant SkipExtensions(data[6], data[40..], MAX_EXT_HEADERS)
             == SkipExtensions(nextHeader, data[offset..], MAX_EXT_HEADERS - i)
    {
      if !IsExtensionHeader(nextHeader) {
        break;
      }
      if |data| < offset + 2 {
        return None;
      }
      ghost var rest := data[offset..];
      var following := data[offset];
      var extLen := if nextHeader == FRAGMENT then 8 else (data[offset + 1] as int + 1) * 8;
      if |data| < offset + extLen {
        return None;
      }
      assert extLen == ExtLength(nextHeader, rest);
      assert rest[extLen..] == data[offset + extLen..];
      nextHeader := following;
      offset := offset + extLen;
    }
    if nextHeader != PROTO_UDP {
      return None;
    }
    return DecapUdp(data[offset..], src, dst);
  }

  function Decapsulate(linkType: int, frame: bytes): Option<DecapsulatedUdp> {
    match StripLink(linkType, frame)
    case None => None
    case Some(Carried(ethertype, packet)) =>
      if ethertype == ETHERTYPE_IPV4 then DecapIpv4(packet)
      else if ethertype == ETHERTYPE_IPV6 then Ipv6(packet)
      else None
  }

  method DecapsulateUdp(linkType: int, frame: bytes) returns (r: Option<DecapsulatedUdp>)
    ensures r == Decapsulate(linkType, frame)
  {
    var stripped: Option<Carried>;
    if linkType == EN10MB {
      stripped := StripEthernet(frame);
    } else {
      stripped := StripLink(linkType, frame);
    }
    if stripped.None? {
      return None;
    }
    var ethertype, packet := stripped.value.kind, stripped.value.data;
    if ethertype == ETHERTYPE_IPV4 {
      return DecapIpv4(packet);
    }
    if ethertype == ETHERTYPE_IPV6 {
      r := DecapIpv6(packet);
      return;
    }
    return None;
  }
}
