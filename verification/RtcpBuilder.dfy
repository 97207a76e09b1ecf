/** The RTCP serializer (src/rtpkit/builder/rtcp_builder.py). */
module RtcpBuilder {
  import opened Bytes
  import opened Wrappers
  import opened RtcpModel

  const MAX_COUNT := 31

  type Wire = Result<bytes, RtcpError>

  /** `struct.pack("!{n}I", *ns)`, with the `struct` error already turned into a build error. */
  function PackWords(ns: seq<int>): Wire {
    if forall i :: 0 <= i < |ns| ==> Fits32(ns[i]) then Success(Words(ns)) else Failure(BuildError)
  }

  /** `b"".join(f(x) for x in xs)` for an `f` that may raise. */
  function JoinMap<T>(f: T -> Wire, xs: seq<T>): Wire {
    if xs == [] then Success([]) else
      var head :- f(xs[0]);
      var tail :- JoinMap(f, xs[1..]);
      Success(head + tail)
  }

  lemma JoinMapFront<T>(f: T -> Wire, x: T, xs: seq<T>)
    requires f(x).Success? && JoinMap(f, xs).Success?
    ensures JoinMap(f, [x] + xs) == Success(f(x).value + JoinMap(f, xs).value)
  {
    assert ([x] + xs)[1..] == xs;
  }

  function SerializeBlock(rb: ReportBlock): (r: Wire)
    ensures r.Success? ==> |r.value| == 24
  {
    if !(0 <= rb.fractionLost <= 255) then Failure(BuildError)
    else if !(-0x80_0000 <= rb.cumulativeLost <= 0x7F_FFFF) then Failure(BuildError)
    else
      var flcl := rb.fractionLost * 0x100_0000 + rb.cumulativeLost % 0x100_0000;
      PackWords([rb.ssrc, flcl, rb.extendedHighest, rb.jitter, rb.lastSr, rb.delaySinceLastSr])
  }

  function SerializeItem(item: SdesItem): (r: Wire)
    ensures r.Success? ==> |r.value| == 2 + |item.text|
  {
    if !(1 <= item.kind <= 255) || |item.text| > 255 then Failure(BuildError)
    else Success([item.kind, |item.text|] + item.text)
  }

  function SerializeChunk(chunk: SdesChunk): (r: Wire)
    ensures r.Success? ==> |r.value| % 4 == 0
  {
    var items :- JoinMap(SerializeItem, chunk.items);
    var ssrc :- PackWords([chunk.ssrc]);
    var raw := ssrc + items + [0];
    Success(raw + Zeros(Pad4(|raw|)))
  }

  /** A packet's count field, type and body, before alignment and padding. */
  datatype Parts = Parts(count: nat, packetType: byte, body: bytes)

  function Serialize(p: RtcpPacket): (r: Result<Parts, RtcpError>)
    ensures r.Success? ==> r.value.count <= MAX_COUNT
  {
    match p
    case SenderReport(ssrc, info, blocks, _) =>
      if |blocks| > MAX_COUNT then Failure(BuildError) else
        var words := [ssrc, info.ntpSeconds, info.ntpFraction, info.rtpTimestamp, info.packetCount, info.octetCount];
        var head :- PackWords(words);
        var tail :- JoinMap(SerializeBlock, blocks);
        Success(Parts(|blocks|, SR, head + tail))
    case ReceiverReport(ssrc, blocks, _) =>
      if |blocks| > MAX_COUNT then Failure(BuildError) else
        var head :- PackWords([ssrc]);
        var tail :- JoinMap(SerializeBlock, blocks);
        Success(Parts(|blocks|, RR, head + tail))
    case SourceDescription(chunks, _) =>
      if |chunks| > MAX_COUNT then Failure(BuildError) else
        var body :- JoinMap(SerializeChunk, chunks);
        Success(Parts(|chunks|, SDES, body))
    case Goodbye(sources, reason, _) =>
      if |sources| > MAX_COUNT then Failure(BuildError) else
        var body :- PackWords(sources);
        if reason.None? then Success(Parts(|sources|, BYE, body))
        else if |reason.value| > 255 then Failure(BuildError)
        else Success(Parts(|sources|, BYE, body + [|reason.value|] + reason.value))
    case ApplicationDefined(subtype, ssrc, name, data, _) =>
      if !(0 <= subtype <= MAX_COUNT) || !IsAscii(name) || |name| != 4 then Failure(BuildError) else
        var head :- PackWords([ssrc]);
        Success(Parts(subtype, APP, head + EncodeAscii(name) + data))
  }

  /** The body after structural alignment and the trailing padding bytes. */
  function PadBody(body: bytes, padding: nat): (s: bytes)
    requires padding < 256 && padding % 4 == 0
    ensures |s| % 4 == 0
  {
    var aligned := body + Zeros(Pad4(|body|));
    if padding == 0 then aligned else aligned + Zeros(padding - 1) + [padding]
  }

  function BuildOne(p: RtcpPacket): Wire {
    var parts :- Serialize(p);
    if !(0 <= p.padding <= 255) || p.padding % 4 != 0 then Failure(BuildError) else
      var body := PadBody(parts.body, p.padding);
      // the length word is packed outside the handler that wraps struct errors
      if !Fits16(|body| / 4) then Failure(StructError) else
        var byte0 := 128 + (if p.padding != 0 then 32 else 0) + parts.count;
        Success([byte0, parts.packetType] + BE(|body| / 4, 2) + body)
  }

  /** What `build_rtcp` returns or raises. */
  function Build(ps: seq<RtcpPacket>): Wire {
    JoinMap(BuildOne, ps)
  }
}
