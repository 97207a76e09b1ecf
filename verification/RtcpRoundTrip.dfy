/** build then parse: every RTCP packet the builder accepts comes back from the parser. */
module RtcpRoundTrip {
  import opened Bytes
  import opened Wrappers
  import opened RtcpModel
  import opened RtcpParser
  import opened RtcpBuilder

  /** What a built packet parses back to: APP data gains the zeros that align it. */
  function Aligned(p: RtcpPacket): RtcpPacket {
    if p.ApplicationDefined? then p.(data := p.data + Zeros(Pad4(|p.data|))) else p
  }

  function AlignedAll(ps: seq<RtcpPacket>): (qs: seq<RtcpPacket>)
    ensures |qs| == |ps|
    ensures forall i :: 0 <= i < |ps| ==> qs[i] == Aligned(ps[i])
  {
    if ps == [] then [] else [Aligned(ps[0])] + AlignedAll(ps[1..])
  }

  lemma {:induction false} BlocksRoundTrip(bs: seq<ReportBlock>, rest: bytes)
    requires JoinMap(SerializeBlock, bs).Success?
    ensures var s := JoinMap(SerializeBlock, bs).value;
            |s| == 24 * |bs| && Blocks(s + rest, |bs|) == bs
  {
    if bs != [] {
      var head, tail := SerializeBlock(bs[0]).value, JoinMap(SerializeBlock, bs[1..]).value;
      BlockRoundTrip(bs[0], tail + rest);
      BlocksRoundTrip(bs[1..], rest);
      assert (head + tail) + rest == head + (tail + rest);
      assert (head + (tail + rest))[24..] == tail + rest;
    }
  }

  lemma BlockRoundTrip(rb: ReportBlock, rest: bytes)
    requires SerializeBlock(rb).Success?
    ensures BlockOfWords(UnWords(SerializeBlock(rb).value + rest, 6)) == rb
  {
    var flcl := rb.fractionLost * 0x100_0000 + rb.cumulativeLost % 0x100_0000;
    var words := [rb.ssrc, flcl, rb.extendedHighest, rb.jitter, rb.lastSr, rb.delaySinceLastSr];
    assert forall i :: 0 <= i < 6 ==> Fits32(words[i]);
    UnpackPackWords(words, rest);
    assert flcl % 0x100_0000 == rb.cumulativeLost % 0x100_0000;
  }

  lemma ItemRoundTrip(item: SdesItem, rest: bytes)
    requires SerializeItem(item).Success?
    ensures var s := SerializeItem(item).value;
            Items(s + rest) == PrependRead([item], |s|, Items(rest))
  {
    var s := SerializeItem(item).value + rest;
    assert s[0] == item.kind && s[1] == |item.text|;
    assert s[2..2 + |item.text|] == item.text;
    assert s[2 + |item.text|..] == rest;
  }

  lemma {:induction false} ItemsRoundTrip(items: seq<SdesItem>, rest: bytes)
    requires JoinMap(SerializeItem, items).Success?
    ensures var s := JoinMap(SerializeItem, items).value;
            Items(s + [0] + rest) == Success(Read(items, |s| + 1))
  {
    hide SerializeItem;
    if items != [] {
      hide Items;
      var head, tail := SerializeItem(items[0]).value, JoinMap(SerializeItem, items[1..]).value;
      ItemsRoundTrip(items[1..], rest);
      ItemRoundTrip(items[0], tail + [0] + rest);
      assert (head + tail) + [0] + rest == head + (tail + [0] + rest);
      assert [items[0]] + items[1..] == items;
    } else {
      assert [] + [0] + rest == [0] + rest;
    }
  }

  lemma ChunkRoundTrip(chunk: SdesChunk, rest: bytes)
    requires SerializeChunk(chunk).Success?
    ensures var s := SerializeChunk(chunk).value; Chunk(s + rest) == Success(Read(chunk, |s|))
  {
    hide Items, JoinMap, UnBE;
    var items := JoinMap(SerializeItem, chunk.items).value;
    var ssrc := Words([chunk.ssrc]);
    var raw := ssrc + items + [0];
    var filler := Zeros(Pad4(|raw|));
    var s := raw + filler + rest;
    assert U32(s, 0) == chunk.ssrc by {
      var after := items + [0] + filler + rest;
      assert s == ssrc + after;
      UnpackPackWords([chunk.ssrc], after);
      assert UnWords(s, 1)[0] == U32(s, 0);
    }
    assert s[4..] == items + [0] + (filler + rest);
    ItemsRoundTrip(chunk.items, filler + rest);
  }

  lemma {:induction false} ChunksRoundTrip(chunks: seq<SdesChunk>, rest: bytes)
    requires JoinMap(SerializeChunk, chunks).Success?
    ensures var s := JoinMap(SerializeChunk, chunks).value;
            |s| % 4 == 0 && Chunks(s + rest, |chunks|) == Success(chunks)
  {
    hide Chunk, SerializeChunk;
    if chunks != [] {
      var head, tail := SerializeChunk(chunks[0]).value, JoinMap(SerializeChunk, chunks[1..]).value;
      ChunkRoundTrip(chunks[0], tail + rest);
      ChunksRoundTrip(chunks[1..], rest);
      assert (head + tail) + rest == head + (tail + rest);
      assert (head + (tail + rest))[|head|..] == tail + rest;
      assert [chunks[0]] + chunks[1..] == chunks;
    }
  }

  // ---------------------------------------------------------------- one packet

  lemma SenderReportRoundTrip(p: RtcpPacket)
    requires p.SenderReport? && p.padding >= 0 && Serialize(p).Success?
    ensures var parts := Serialize(p).value;
            parts.packetType == SR && |parts.body| % 4 == 0
            && SenderReportBody(parts.body, parts.count, p.padding) == Success(p)
  {
    hide UnBE, UnWords, Words, Blocks, JoinMap;
    var words := [p.ssrc, p.info.ntpSeconds, p.info.ntpFraction, p.info.rtpTimestamp,
                  p.info.packetCount, p.info.octetCount];
    var tail := JoinMap(SerializeBlock, p.blocks).value;
    BlocksRoundTrip(p.blocks, []);
    assert tail + [] == tail;
    assert forall i :: 0 <= i < 6 ==> Fits32(words[i]);
    UnpackPackWords(words, tail);
    assert (Words(words) + tail)[24..] == tail;
  }

  lemma ReceiverReportRoundTrip(p: RtcpPacket)
    requires p.ReceiverReport? && p.padding >= 0 && Serialize(p).Success?
    ensures var parts := Serialize(p).value;
            parts.packetType == RR && |parts.body| % 4 == 0
            && ReceiverReportBody(parts.body, parts.count, p.padding) == Success(p)
  {
    hide UnBE, Words, Blocks, JoinMap;
    var tail := JoinMap(SerializeBlock, p.blocks).value;
    BlocksRoundTrip(p.blocks, []);
    assert tail + [] == tail;
    assert Fits32([p.ssrc][0]);
    FirstWord(p.ssrc, tail);
    assert (Words([p.ssrc]) + tail)[4..] == tail;
  }

  lemma FirstWord(n: int, rest: bytes)
    requires Fits32(n)
    ensures U32(Words([n]) + rest, 0) == n
  {
    UnpackPackWords([n], rest);
    assert UnWords(Words([n]) + rest, 1)[0] == U32(Words([n]) + rest, 0);
  }

  lemma SdesRoundTrip(p: RtcpPacket)
    requires p.SourceDescription? && p.padding >= 0 && Serialize(p).Success?
    ensures var parts := Serialize(p).value;
            parts.packetType == SDES && |parts.body| % 4 == 0
            && SdesBody(parts.body, parts.count, p.padding) == Success(p)
  {
    hide JoinMap, Chunks;
    ChunksRoundTrip(p.chunks, []);
    var body := JoinMap(SerializeChunk, p.chunks).value;
    assert body + [] == body;
  }

  lemma ByeRoundTrip(p: RtcpPacket)
    requires p.Goodbye? && p.padding >= 0 && Serialize(p).Success?
    ensures var parts := Serialize(p).value;
            parts.packetType == BYE
            && ByeBody(parts.body + Zeros(Pad4(|parts.body|)), parts.count, p.padding) == Success(p)
  {
    hide UnWords, Words;
    var body := Serialize(p).value.body;
    var content := body + Zeros(Pad4(|body|));
    var at := 4 * |p.sources|;
    UnpackPackWords(p.sources, content[at..]);
    assert content == Words(p.sources) + content[at..];
    if p.reason.Some? {
      assert content[at] == |p.reason.value|;
      assert content[at + 1..at + 1 + content[at]] == p.reason.value;
    }
  }

  lemma AppRoundTrip(p: RtcpPacket)
    requires p.ApplicationDefined? && p.padding >= 0 && Serialize(p).Success?
    ensures var parts := Serialize(p).value;
            parts.packetType == APP
            && AppBody(parts.body + Zeros(Pad4(|parts.body|)), parts.count, p.padding) == Success(Aligned(p))
  {
    hide UnBE, Words;
    var body := Serialize(p).value.body;
    var content := body + Zeros(Pad4(|body|));
    assert Fits32([p.ssrc][0]);
    FirstWord(p.ssrc, content[4..]);
    assert content == Words([p.ssrc]) + content[4..];
    assert content[4..8] == EncodeAscii(p.name);
    AsciiRoundTrip(p.name);
    assert Pad4(|body|) == Pad4(|p.data|);
    assert content[8..] == p.data + Zeros(Pad4(|p.data|));
  }

  lemma BodyRoundTrip(p: RtcpPacket)
    requires p.padding >= 0 && Serialize(p).Success?
    ensures var parts := Serialize(p).value;
            Body(parts.packetType, parts.count, parts.body + Zeros(Pad4(|parts.body|)), p.padding)
            == Success(Aligned(p))
  {
    hide Serialize, SenderReportBody, ReceiverReportBody, SdesBody, ByeBody, AppBody;
    var parts := Serialize(p).value;
    assert |parts.body| % 4 == 0 ==> parts.body + Zeros(Pad4(|parts.body|)) == parts.body;
    match p
    case SenderReport(_, _, _, _) => SenderReportRoundTrip(p);
    case ReceiverReport(_, _, _) => ReceiverReportRoundTrip(p);
    case SourceDescription(_, _) => SdesRoundTrip(p);
    case Goodbye(_, _, _) => ByeRoundTrip(p);
    case ApplicationDefined(_, _, _, _, _) => AppRoundTrip(p);
  }

  lemma PaddingRoundTrip(body: bytes, padding: nat, strict: bool)
    requires padding < 256 && padding % 4 == 0
    ensures var s := PadBody(body, padding);
            PaddingCount(padding != 0, s, strict) == Success(padding)
            && padding <= |s| && s[..|s| - padding] == body + Zeros(Pad4(|body|))
  {
  }

  /** A built packet, whatever follows it, is taken whole and gives back the packet it was built from. */
  lemma StepRoundTrip(p: RtcpPacket, rest: bytes, strict: bool)
    requires BuildOne(p).Success?
    ensures var s := BuildOne(p).value;
            |s| >= 4 && NextStep(s + rest, strict) == Take(|s|, Some(Aligned(p)))
  {
    hide UnBE, BE, Serialize, Body, PadBody;
    var parts := Serialize(p).value;
    var body := PadBody(parts.body, p.padding);
    var words := |body| / 4;
    var s := BuildOne(p).value;
    var data := s + rest;
    Widths();
    UnpackPackBE(words, 2);
    assert data[2..4] == BE(words, 2);
    assert data[4..|s|] == body;
    assert data[0] / 64 == 2 && data[0] % 32 == parts.count;
    PaddingRoundTrip(parts.body, p.padding, strict);
    BodyRoundTrip(p);
  }

  // ---------------------------------------------------------------- the compound packet

  /** A packet taken from the front of the buffer comes before the packets of the rest. */
  lemma PacketsFront(head: bytes, rest: bytes, p: RtcpPacket, strict: bool)
    requires head != [] && NextStep(head + rest, strict) == Take(|head|, Some(p))
    ensures Packets(head + rest, strict) == Packets(rest, strict).After([p])
  {
    hide NextStep;
    assert (head + rest)[|head|..] == rest;
  }

  lemma {:induction false} PacketsRoundTrip(ps: seq<RtcpPacket>, rest: bytes, strict: bool)
    requires Build(ps).Success?
    ensures Packets(Build(ps).value + rest, strict) == Packets(rest, strict).After(AlignedAll(ps))
  {
    hide BuildOne, NextStep, Packets;
    if ps == [] {
      assert [] + rest == rest;
      Packets(rest, strict).AfterNothing();
    } else {
      var head, tail := BuildOne(ps[0]).value, Build(ps[1..]).value;
      assert (head + tail) + rest == head + (tail + rest);
      StepRoundTrip(ps[0], tail + rest, strict);
      PacketsFront(head, tail + rest, Aligned(ps[0]), strict);
      PacketsRoundTrip(ps[1..], rest, strict);
      Packets(rest, strict).AfterTwice([Aligned(ps[0])], AlignedAll(ps[1..]));
    }
  }

  /** Parsing what was built returns the packets built, up to the zeros that align APP data. */
  lemma CompoundRoundTrip(ps: seq<RtcpPacket>, strict: bool)
    requires ps != [] && Build(ps).Success?
    ensures Compound(Build(ps).value, strict) == Success(AlignedAll(ps))
  {
    hide BuildOne, NextStep;
    var s := Build(ps).value;
    PacketsRoundTrip(ps, [], strict);
    assert s + [] == s;
    assert AlignedAll(ps) + [] == AlignedAll(ps);
    StepRoundTrip(ps[0], [], strict);
  }

  /** The packets that come back unchanged. */
  predicate IsAligned(p: RtcpPacket) {
    p.ApplicationDefined? ==> |p.data| % 4 == 0
  }

  lemma AlignedIsIdentity(p: RtcpPacket)
    ensures Aligned(p) == p <==> IsAligned(p)
  {
    if p.ApplicationDefined? {
      assert |Aligned(p).data| == |p.data| + Pad4(|p.data|);
      if |p.data| % 4 == 0 { assert Aligned(p).data == p.data; }
    }
  }

  /** The round trip is exact precisely when no APP packet's data needs aligning. */
  lemma CompoundRoundTripExact(ps: seq<RtcpPacket>, strict: bool)
    requires ps != [] && Build(ps).Success?
    ensures Compound(Build(ps).value, strict) == Success(ps)
            <==> forall i :: 0 <= i < |ps| ==> IsAligned(ps[i])
  {
    hide Build, Compound, Aligned, IsAligned;
    CompoundRoundTrip(ps, strict);
    forall i | 0 <= i < |ps| ensures AlignedAll(ps)[i] == ps[i] <==> IsAligned(ps[i]) {
      AlignedIsIdentity(ps[i]);
    }
    if forall i :: 0 <= i < |ps| ==> IsAligned(ps[i]) {
      assert AlignedAll(ps) == ps;
    }
  }

  /** The empty list builds, but to a buffer the parser rejects in both modes. */
  lemma EmptyCompoundIsRejected(strict: bool)
    ensures Build([]) == Success([]) && Compound([], strict) == Failure(BufferTooShort)
  {
  }
}
