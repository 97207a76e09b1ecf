/** Exactly which packets the RTCP builder accepts, which exception the others raise, and the frame it writes. */
module RtcpRanges {
  import opened Bytes
  import opened Wrappers
  import opened RtcpModel
  import opened RtcpBuilder

  // ---------------------------------------------------------------- what fits the wire format

  predicate AllFit32(ns: seq<int>) {
    forall i :: 0 <= i < |ns| ==> Fits32(ns[i])
  }

  predicate BlockFits(rb: ReportBlock) {
    && 0 <= rb.fractionLost < 0x100
    && -0x80_0000 <= rb.cumulativeLost < 0x80_0000
    && Fits32(rb.ssrc) && Fits32(rb.extendedHighest) && Fits32(rb.jitter)
    && Fits32(rb.lastSr) && Fits32(rb.delaySinceLastSr)
  }

  predicate ItemFits(item: SdesItem) {
    1 <= item.kind < 0x100 && |item.text| < 0x100
  }

  predicate ChunkFits(chunk: SdesChunk) {
    Fits32(chunk.ssrc) && forall i :: 0 <= i < |chunk.items| ==> ItemFits(chunk.items[i])
  }

  predicate FieldsFit(p: RtcpPacket) {
    match p
    case SenderReport(ssrc, info, blocks, _) =>
      && Fits32(ssrc) && Fits32(info.ntpSeconds) && Fits32(info.ntpFraction)
      && Fits32(info.rtpTimestamp) && Fits32(info.packetCount) && Fits32(info.octetCount)
      && |blocks| < 32 && forall i :: 0 <= i < |blocks| ==> BlockFits(blocks[i])
    case ReceiverReport(ssrc, blocks, _) =>
      Fits32(ssrc) && |blocks| < 32 && forall i :: 0 <= i < |blocks| ==> BlockFits(blocks[i])
    case SourceDescription(chunks, _) =>
      |chunks| < 32 && forall i :: 0 <= i < |chunks| ==> ChunkFits(chunks[i])
    case Goodbye(sources, reason, _) =>
      |sources| < 32 && AllFit32(sources) && (reason.Some? ==> |reason.value| < 0x100)
    case ApplicationDefined(subtype, ssrc, name, _, _) =>
      0 <= subtype < 32 && Fits32(ssrc) && IsAscii(name) && |name| == 4
  }

  predicate PacketFits(p: RtcpPacket) {
    FieldsFit(p) && 0 <= p.padding < 0x100 && p.padding % 4 == 0
  }

  // ---------------------------------------------------------------- sizes on the wire

  function RoundUp4(n: nat): (m: nat)
    ensures m % 4 == 0 && n <= m < n + 4
  {
    n + Pad4(n)
  }

  function ItemsSize(items: seq<SdesItem>): nat {
    if items == [] then 0 else 2 + |items[0].text| + ItemsSize(items[1..])
  }

  function ChunksSize(chunks: seq<SdesChunk>): nat {
    if chunks == [] then 0 else RoundUp4(4 + ItemsSize(chunks[0].items) + 1) + ChunksSize(chunks[1..])
  }

  /** The bytes of a packet between its header and its padding. */
  function ContentSize(p: RtcpPacket): nat {
    match p
    case SenderReport(_, _, blocks, _) => 24 + 24 * |blocks|
    case ReceiverReport(_, blocks, _) => 4 + 24 * |blocks|
    case SourceDescription(chunks, _) => RoundUp4(ChunksSize(chunks))
    case Goodbye(sources, reason, _) => RoundUp4(4 * |sources| + if reason.None? then 0 else 1 + |reason.value|)
    case ApplicationDefined(_, _, _, data, _) => RoundUp4(8 + |data|)
  }

  /** The longest body a 16-bit count of words can declare. */
  const MAX_BODY := 4 * 0xFFFF

  // ---------------------------------------------------------------- joining

  /** A join succeeds exactly when every part does; otherwise it raises what the first failing part raises. */
  lemma {:induction false} JoinMapOutcome<T>(f: T -> Wire, xs: seq<T>)
    ensures JoinMap(f, xs).Success? <==> forall i :: 0 <= i < |xs| ==> f(xs[i]).Success?
    ensures JoinMap(f, xs).Failure? ==>
      exists i :: 0 <= i < |xs| && FirstFailure(f, xs, i) && JoinMap(f, xs).error == f(xs[i]).error
  {
    if xs != [] {
      JoinMapOutcome(f, xs[1..]);
      assert forall i :: 0 < i < |xs| ==> xs[i] == xs[1..][i - 1];
      if f(xs[0]).Failure? {
        assert FirstFailure(f, xs, 0);
      } else if JoinMap(f, xs[1..]).Failure? {
        var i :| 0 <= i < |xs[1..]| && FirstFailure(f, xs[1..], i) && JoinMap(f, xs[1..]).error == f(xs[1..][i]).error;
        assert xs[1..][i] == xs[i + 1];
        assert FirstFailure(f, xs, i + 1);
      }
    }
  }

  ghost predicate FirstFailure<T>(f: T -> Wire, xs: seq<T>, i: int) {
    0 <= i < |xs| && f(xs[i]).Failure? && forall j :: 0 <= j < i ==> f(xs[j]).Success?
  }

  // ---------------------------------------------------------------- each shape

  lemma BlockOutcome(rb: ReportBlock)
    ensures SerializeBlock(rb).Success? <==> BlockFits(rb)
    ensures SerializeBlock(rb).Failure? ==> SerializeBlock(rb).error == BuildError
  {
    hide Words;
    if 0 <= rb.fractionLost < 0x100 && -0x80_0000 <= rb.cumulativeLost < 0x80_0000 {
      var flcl := rb.fractionLost * 0x100_0000 + rb.cumulativeLost % 0x100_0000;
      var ns := [rb.ssrc, flcl, rb.extendedHighest, rb.jitter, rb.lastSr, rb.delaySinceLastSr];
      assert Fits32(flcl);
      if AllFit32(ns) {
        assert Fits32(ns[0]) && Fits32(ns[2]) && Fits32(ns[3]) && Fits32(ns[4]) && Fits32(ns[5]);
      }
    }
  }

  lemma {:induction false} BlocksOutcome(bs: seq<ReportBlock>)
    ensures var r := JoinMap(SerializeBlock, bs);
            (r.Success? <==> forall i :: 0 <= i < |bs| ==> BlockFits(bs[i]))
            && (r.Failure? ==> r.error == BuildError) && (r.Success? ==> |r.value| == 24 * |bs|)
  {
    hide BlockFits;
    if bs != [] {
      BlockOutcome(bs[0]);
      BlocksOutcome(bs[1..]);
      assert forall i :: 0 < i < |bs| ==> bs[i] == bs[1..][i - 1];
    }
  }

  lemma {:induction false} ItemsOutcome(items: seq<SdesItem>)
    ensures var r := JoinMap(SerializeItem, items);
            (r.Success? <==> forall i :: 0 <= i < |items| ==> ItemFits(items[i]))
            && (r.Failure? ==> r.error == BuildError) && (r.Success? ==> |r.value| == ItemsSize(items))
  {
    if items != [] {
      ItemsOutcome(items[1..]);
      assert forall i :: 0 < i < |items| ==> items[i] == items[1..][i - 1];
    }
  }

  lemma ChunkOutcome(chunk: SdesChunk)
    ensures var r := SerializeChunk(chunk);
            (r.Success? <==> ChunkFits(chunk))
            && (r.Failure? ==> r.error == BuildError)
            && (r.Success? ==> |r.value| == RoundUp4(4 + ItemsSize(chunk.items) + 1))
  {
    hide JoinMap, ItemFits;
    ItemsOutcome(chunk.items);
    assert AllFit32([chunk.ssrc]) <==> Fits32([chunk.ssrc][0]);
  }

  lemma {:induction false} ChunksOutcome(chunks: seq<SdesChunk>)
    ensures var r := JoinMap(SerializeChunk, chunks);
            (r.Success? <==> forall i :: 0 <= i < |chunks| ==> ChunkFits(chunks[i]))
            && (r.Failure? ==> r.error == BuildError) && (r.Success? ==> |r.value| == ChunksSize(chunks))
  {
    hide SerializeChunk, ChunkFits;
    if chunks != [] {
      ChunkOutcome(chunks[0]);
      ChunksOutcome(chunks[1..]);
      assert forall i :: 0 < i < |chunks| ==> chunks[i] == chunks[1..][i - 1];
    }
  }

  lemma SerializeOutcome(p: RtcpPacket)
    ensures var r := Serialize(p);
            (r.Success? <==> FieldsFit(p)) && (r.Failure? ==> r.error == BuildError)
            && (r.Success? ==> RoundUp4(|r.value.body|) == ContentSize(p))
  {
    hide JoinMap, Words, BlockFits, ChunkFits, ChunksSize;
    match p
    case SenderReport(ssrc, info, blocks, _) =>
      var ns := [ssrc, info.ntpSeconds, info.ntpFraction, info.rtpTimestamp, info.packetCount, info.octetCount];
      if AllFit32(ns) {
        assert Fits32(ns[0]) && Fits32(ns[1]) && Fits32(ns[2]) && Fits32(ns[3]) && Fits32(ns[4]) && Fits32(ns[5]);
      }
      BlocksOutcome(blocks);
    case ReceiverReport(ssrc, blocks, _) =>
      assert AllFit32([ssrc]) <==> Fits32([ssrc][0]);
      BlocksOutcome(blocks);
    case SourceDescription(chunks, _) =>
      ChunksOutcome(chunks);
    case Goodbye(sources, reason, _) =>
    case ApplicationDefined(subtype, ssrc, name, _, _) =>
      assert AllFit32([ssrc]) <==> Fits32([ssrc][0]);
  }

  // ---------------------------------------------------------------- whole packets

  /**
   * A packet is built exactly when its fields fit and its body is at most 65535 words. A field that
   * does not fit raises the build error; a body that is too long escapes as the bare struct error.
   */
  lemma BuildOneOutcome(p: RtcpPacket)
    ensures BuildOne(p) == Failure(BuildError) <==> !PacketFits(p)
    ensures BuildOne(p) == Failure(StructError) <==> PacketFits(p) && ContentSize(p) + p.padding > MAX_BODY
    ensures BuildOne(p).Success? <==> PacketFits(p) && ContentSize(p) + p.padding <= MAX_BODY
  {
    hide Serialize, FieldsFit, ContentSize, BE;
    SerializeOutcome(p);
  }

  /** A packet whose fields all fit, and which is refused with the wrong error: 2^18 bytes of APP data. */
  lemma LongAppEscapes()
    ensures BuildOne(ApplicationDefined(0, 0, "data", Zeros(0x4_0000), 0)) == Failure(StructError)
  {
    hide BuildOne;
    BuildOneOutcome(ApplicationDefined(0, 0, "data", Zeros(0x4_0000), 0));
  }

  /** The frame of a built packet, field by field as section 6.4.1 of RFC 3550 lays it out; all filler is zero. */
  lemma BuildOneFrame(p: RtcpPacket)
    requires BuildOne(p).Success?
    ensures var s := BuildOne(p).value;
            && |s| == 4 + ContentSize(p) + p.padding
            && s[0] / 64 == 2 && (s[0] / 32 % 2 == 1 <==> p.padding > 0)
            && s[0] % 32 == Serialize(p).value.count
            && s[1] == Serialize(p).value.packetType
            && 4 * (U16(s, 2) + 1) == |s|
            && s[4..4 + |Serialize(p).value.body|] == Serialize(p).value.body
            && (forall k :: 4 + |Serialize(p).value.body| <= k < |s| - 1 && p.padding > 0 ==> s[k] == 0)
            && (forall k :: 4 + |Serialize(p).value.body| <= k < |s| && p.padding == 0 ==> s[k] == 0)
            && (p.padding > 0 ==> s[|s| - 1] == p.padding)
  {
    hide Serialize, ContentSize, UnBE, BE;
    SerializeOutcome(p);
    var s := BuildOne(p).value;
    var body := PadBody(Serialize(p).value.body, p.padding);
    Widths();
    UnpackPackBE(|body| / 4, 2);
    assert s[2..4] == BE(|body| / 4, 2);
  }

  /** The whole list is built exactly when each packet is, and the first that is not decides the error. */
  lemma BuildOutcome(ps: seq<RtcpPacket>)
    ensures Build(ps).Success? <==>
      forall i :: 0 <= i < |ps| ==> PacketFits(ps[i]) && ContentSize(ps[i]) + ps[i].padding <= MAX_BODY
    ensures Build(ps).Failure? ==>
      exists i :: 0 <= i < |ps| && FirstFailure(BuildOne, ps, i)
                  && Build(ps).error == if PacketFits(ps[i]) then StructError else BuildError
  {
    hide BuildOne, PacketFits, ContentSize;
    JoinMapOutcome(BuildOne, ps);
    forall p: RtcpPacket
      ensures BuildOne(p).Success? <==> PacketFits(p) && ContentSize(p) + p.padding <= MAX_BODY
      ensures BuildOne(p).Failure? ==> BuildOne(p).error == if PacketFits(p) then StructError else BuildError
    {
      BuildOneOutcome(p);
      OnlyTwoErrors(p);
    }
  }

  lemma OnlyTwoErrors(p: RtcpPacket)
    ensures BuildOne(p).Failure? ==> BuildOne(p).error in {BuildError, StructError}
  {
    hide Serialize, BE;
    SerializeOutcome(p);
  }

  // ---------------------------------------------------------------- the layout of reports

  /** A report block's fields where section 6.4.1 of RFC 3550 puts them; the loss count in two's complement. */
  lemma BlockLayout(rb: ReportBlock)
    requires SerializeBlock(rb).Success?
    ensures var s := SerializeBlock(rb).value;
            && U32(s, 0) == rb.ssrc
            && U32(s, 4) / 0x100_0000 == rb.fractionLost
            && (U32(s, 4) - rb.cumulativeLost) % 0x100_0000 == 0
            && U32(s, 8) == rb.extendedHighest && U32(s, 12) == rb.jitter
            && U32(s, 16) == rb.lastSr && U32(s, 20) == rb.delaySinceLastSr
  {
    hide Words, UnBE;
    var flcl := rb.fractionLost * 0x100_0000 + rb.cumulativeLost % 0x100_0000;
    var ns := [rb.ssrc, flcl, rb.extendedHighest, rb.jitter, rb.lastSr, rb.delaySinceLastSr];
    assert forall i :: 0 <= i < 6 ==> Fits32(ns[i]);
    assert Words(ns) + [] == Words(ns);
    WordAt(ns, [], 0);
    WordAt(ns, [], 1);
    WordAt(ns, [], 2);
    WordAt(ns, [], 3);
    WordAt(ns, [], 4);
    WordAt(ns, [], 5);
  }

  /** A sender report's SSRC, sender information and first block where section 6.4.1 of RFC 3550 puts them. */
  lemma SenderReportLayout(p: RtcpPacket)
    requires p.SenderReport? && Serialize(p).Success?
    ensures var s := Serialize(p).value.body;
            && |s| == 24 + 24 * |p.blocks|
            && U32(s, 0) == p.ssrc && U32(s, 4) == p.info.ntpSeconds && U32(s, 8) == p.info.ntpFraction
            && U32(s, 12) == p.info.rtpTimestamp && U32(s, 16) == p.info.packetCount
            && U32(s, 20) == p.info.octetCount
            && JoinMap(SerializeBlock, p.blocks) == Success(s[24..])
  {
    hide Words, UnBE, JoinMap;
    var ns := [p.ssrc, p.info.ntpSeconds, p.info.ntpFraction, p.info.rtpTimestamp, p.info.packetCount,
               p.info.octetCount];
    assert forall i :: 0 <= i < 6 ==> Fits32(ns[i]);
    BlocksOutcome(p.blocks);
    var rest := JoinMap(SerializeBlock, p.blocks).value;
    WordAt(ns, rest, 0);
    WordAt(ns, rest, 1);
    WordAt(ns, rest, 2);
    WordAt(ns, rest, 3);
    WordAt(ns, rest, 4);
    WordAt(ns, rest, 5);
    assert (Words(ns) + rest)[24..] == rest;
  }

  /** A receiver report's SSRC, and its blocks behind it. */
  lemma ReceiverReportLayout(p: RtcpPacket)
    requires p.ReceiverReport? && Serialize(p).Success?
    ensures var s := Serialize(p).value.body;
            |s| >= 4 && U32(s, 0) == p.ssrc && JoinMap(SerializeBlock, p.blocks) == Success(s[4..])
  {
    hide Words, UnBE, JoinMap;
    assert Fits32([p.ssrc][0]);
    var rest := JoinMap(SerializeBlock, p.blocks).value;
    WordAt([p.ssrc], rest, 0);
    assert (Words([p.ssrc]) + rest)[4..] == rest;
  }

  /** An item is its type, the length of its text and the text: section 6.5 of RFC 3550. */
  lemma ItemLayout(item: SdesItem)
    requires SerializeItem(item).Success?
    ensures var s := SerializeItem(item).value;
            |s| == 2 + |item.text| && s[0] == item.kind && s[1] == |item.text| && s[2..] == item.text
  {
  }

  /** A chunk is its SSRC, its items and one to four zeros. */
  lemma ChunkLayout(chunk: SdesChunk)
    requires SerializeChunk(chunk).Success? && JoinMap(SerializeItem, chunk.items).Success?
    ensures var s, items := SerializeChunk(chunk).value, JoinMap(SerializeItem, chunk.items).value;
            && |s| % 4 == 0 && 4 + |items| < |s| <= 4 + |items| + 4 && U32(s, 0) == chunk.ssrc
            && s[4..4 + |items|] == items && forall k :: 4 + |items| <= k < |s| ==> s[k] == 0
  {
    hide Words, UnBE, JoinMap;
    var items := JoinMap(SerializeItem, chunk.items).value;
    var s := SerializeChunk(chunk).value;
    assert Fits32([chunk.ssrc][0]);
    WordAt([chunk.ssrc], s[4..], 0);
    assert s == Words([chunk.ssrc]) + s[4..];
  }

  /** A goodbye is its sources, and the length of its reason and the reason behind them, if there is one. */
  lemma ByeLayout(p: RtcpPacket)
    requires p.Goodbye? && Serialize(p).Success?
    ensures var s, n := Serialize(p).value.body, 4 * |p.sources|;
            && |s| >= n && (forall i :: 0 <= i < |p.sources| ==> U32(s, 4 * i) == p.sources[i])
            && s[n..] == if p.reason.None? then [] else [|p.reason.value|] + p.reason.value
  {
    hide Words, UnBE;
    var s, n := Serialize(p).value.body, 4 * |p.sources|;
    assert s == Words(p.sources) + s[n..];
    forall i | 0 <= i < |p.sources| ensures U32(s, 4 * i) == p.sources[i] {
      WordAt(p.sources, s[n..], i);
    }
  }

  /** An APP packet is its SSRC, the four characters of its name and its data. */
  lemma AppLayout(p: RtcpPacket)
    requires p.ApplicationDefined? && Serialize(p).Success?
    ensures var s := Serialize(p).value.body;
            && |s| == 8 + |p.data| && U32(s, 0) == p.ssrc && s[8..] == p.data
            && forall k :: 0 <= k < 4 ==> s[4 + k] as char == p.name[k]
  {
    hide Words, UnBE;
    var s := Serialize(p).value.body;
    assert Fits32([p.ssrc][0]);
    WordAt([p.ssrc], s[4..], 0);
    assert s == Words([p.ssrc]) + s[4..];
  }
}
