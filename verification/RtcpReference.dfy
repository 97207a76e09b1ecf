/**
 * What the strict RTCP parser accepts, said without parsing (sections 6.4 to 6.7 of RFC 3550): a packet's
 * wire forms are its canonical body with whatever may follow it, and a buffer is accepted as some packets
 * exactly when it is a wire form of each, one behind the other.
 */
module RtcpReference {
  import opened Bytes
  import opened Wrappers
  import opened RtcpModel
  import opened RtcpParser
  import opened RtcpBuilder
  import RoundTrip = RtcpRoundTrip
  import Canonical = RtcpCanonical

  // ---------------------------------------------------------------- wire forms

  /** A chunk up to and including the null that ends its items. */
  function ChunkBody(chunk: SdesChunk): bytes
    requires Fits32(chunk.ssrc) && JoinMap(SerializeItem, chunk.items).Success?
  {
    Words([chunk.ssrc]) + JoinMap(SerializeItem, chunk.items).value + [0]
  }

  /** Chunks one behind the other, each with any filler up to a word boundary, and anything behind the last. */
  predicate ChunksForm(s: bytes, chunks: seq<SdesChunk>) {
    chunks == [] ||
    (&& Fits32(chunks[0].ssrc)
     && JoinMap(SerializeItem, chunks[0].items).Success?
     && var body := ChunkBody(chunks[0]);
        |body| + Pad4(|body|) <= |s| && body <= s && ChunksForm(s[|body| + Pad4(|body|)..], chunks[1..]))
  }

  /** The canonical body, with anything behind it. */
  predicate Begins(content: bytes, p: RtcpPacket) {
    Serialize(p).Success? && Serialize(p).value.body <= content
  }

  /**
   * The contents of a packet between header and padding: reports may have profile data behind them, and a
   * reason for leaving slack; nothing but a reason follows the sources; a name may have any bytes.
   */
  predicate ContentForm(content: bytes, p: RtcpPacket) {
    match p
    case SenderReport(_, _, _, _) => Begins(content, p)
    case ReceiverReport(_, _, _) => Begins(content, p)
    case SourceDescription(chunks, _) => |chunks| < 32 && ChunksForm(content, chunks)
    case Goodbye(_, reason, _) =>
      Begins(content, p) && (reason.None? ==> Serialize(p).value.body == content)
    case ApplicationDefined(subtype, ssrc, name, data, _) =>
      && 0 <= subtype < 32 && |content| >= 8
      && U32(content, 0) == ssrc && DecodeAscii(content[4..8]) == name && content[8..] == data
  }

  function TypeOf(p: RtcpPacket): byte {
    match p
    case SenderReport(_, _, _, _) => SR
    case ReceiverReport(_, _, _) => RR
    case SourceDescription(_, _) => SDES
    case Goodbye(_, _, _) => BYE
    case ApplicationDefined(_, _, _, _, _) => APP
  }

  function CountOf(p: RtcpPacket): int {
    match p
    case SenderReport(_, _, blocks, _) => |blocks|
    case ReceiverReport(_, blocks, _) => |blocks|
    case SourceDescription(chunks, _) => |chunks|
    case Goodbye(sources, _, _) => |sources|
    case ApplicationDefined(subtype, _, _, _, _) => subtype
  }

  /** A whole packet: header, content, any filler and the count of padding bytes. */
  predicate WireForm(s: bytes, p: RtcpPacket) {
    && |s| >= 4 && |s| == 4 * (U16(s, 2) + 1)
    && s[0] / 64 == 2 && s[0] % 32 == CountOf(p) && s[1] == TypeOf(p)
    && 0 <= p.padding <= |s| - 4
    && (if s[0] / 32 % 2 == 1 then p.padding > 0 && s[|s| - 1] == p.padding else p.padding == 0)
    && ContentForm(s[4..|s| - p.padding], p)
  }

  // ---------------------------------------------------------------- contents

  lemma ChunkIff(s: bytes, chunk: SdesChunk, n: nat)
    ensures Chunk(s) == Success(Read(chunk, n)) <==>
      && Fits32(chunk.ssrc) && JoinMap(SerializeItem, chunk.items).Success?
      && n == |ChunkBody(chunk)| + Pad4(|ChunkBody(chunk)|) <= |s| && ChunkBody(chunk) <= s
  {
    if Chunk(s) == Success(Read(chunk, n)) {
      ChunkRead(s);
    } else if Fits32(chunk.ssrc) && JoinMap(SerializeItem, chunk.items).Success? {
      var body := ChunkBody(chunk);
      if |body| + Pad4(|body|) <= |s| && body <= s { ChunkPrinted(s, chunk); }
    }
  }

  lemma ChunkRead(s: bytes)
    requires Chunk(s).Success?
    ensures var Read(chunk, n) := Chunk(s).value;
            && Fits32(chunk.ssrc) && JoinMap(SerializeItem, chunk.items).Success?
            && n == |ChunkBody(chunk)| + Pad4(|ChunkBody(chunk)|) <= |s| && ChunkBody(chunk) <= s
  {
    hide Items, JoinMap, UnBE, Words;
    var chunk, used := Chunk(s).value.value, Items(s[4..]).value.used;
    Canonical.ItemsCanonical(s[4..]);
    Canonical.FirstWordPacked(s);
    assert Words([chunk.ssrc]) == s[..4];
    assert s[..4] + s[4..][..used - 1] + [s[4..][used - 1]] == s[..4 + used];
  }

  lemma ChunkPrinted(s: bytes, chunk: SdesChunk)
    requires Fits32(chunk.ssrc) && JoinMap(SerializeItem, chunk.items).Success?
    requires ChunkBody(chunk) <= s && |ChunkBody(chunk)| + Pad4(|ChunkBody(chunk)|) <= |s|
    ensures Chunk(s) == Success(Read(chunk, |ChunkBody(chunk)| + Pad4(|ChunkBody(chunk)|)))
  {
    hide Items, JoinMap, UnBE, Words;
    var items := JoinMap(SerializeItem, chunk.items).value;
    var body := ChunkBody(chunk);
    var rest := s[|body|..];
    assert s == Words([chunk.ssrc]) + (items + [0] + rest);
    RoundTrip.FirstWord(chunk.ssrc, items + [0] + rest);
    assert s[4..] == items + [0] + rest;
    RoundTrip.ItemsRoundTrip(chunk.items, rest);
  }

  lemma {:induction false} ChunksIff(s: bytes, chunks: seq<SdesChunk>)
    ensures Chunks(s, |chunks|) == Success(chunks) <==> ChunksForm(s, chunks)
    decreases |chunks|
  {
    hide Chunk, ChunkBody, JoinMap;
    if chunks != [] {
      if Chunk(s).Success? {
        ChunkIff(s, Chunk(s).value.value, Chunk(s).value.used);
        ChunksIff(s[Chunk(s).value.used..], chunks[1..]);
        assert [chunks[0]] + chunks[1..] == chunks;
        if Chunk(s).value.value != chunks[0] { ChunkOther(s, chunks[0]); }
      } else {
        ChunkOther(s, chunks[0]);
      }
    }
  }

  /** A chunk that is not read is not there. */
  lemma ChunkOther(s: bytes, chunk: SdesChunk)
    requires Chunk(s).Failure? || Chunk(s).value.value != chunk
    ensures !(&& Fits32(chunk.ssrc) && JoinMap(SerializeItem, chunk.items).Success?
              && |ChunkBody(chunk)| + Pad4(|ChunkBody(chunk)|) <= |s| && ChunkBody(chunk) <= s)
  {
    hide Chunk, ChunkBody, JoinMap;
    if Fits32(chunk.ssrc) && JoinMap(SerializeItem, chunk.items).Success? {
      ChunkIff(s, chunk, |ChunkBody(chunk)| + Pad4(|ChunkBody(chunk)|));
    }
  }

  lemma SenderIff(content: bytes, p: RtcpPacket)
    requires p.SenderReport? && p.padding >= 0
    ensures |p.blocks| < 32 && SenderReportBody(content, |p.blocks|, p.padding) == Success(p) <==> Begins(content, p)
  {
    hide Words, UnWords, Blocks, JoinMap, UnBE;
    if Begins(content, p) {
      SenderPrinted(content, p);
    } else if |p.blocks| < 32 {
      Canonical.ReportsCanonical(content, |p.blocks|, p.padding);
      Canonical.ReportBodyShapes(content, |p.blocks|, p.padding);
    }
  }

  lemma SenderPrinted(content: bytes, p: RtcpPacket)
    requires p.SenderReport? && p.padding >= 0 && Begins(content, p)
    ensures SenderReportBody(content, |p.blocks|, p.padding) == Success(p)
  {
    hide UnBE, UnWords, Words, Blocks, JoinMap;
    var ns := [p.ssrc, p.info.ntpSeconds, p.info.ntpFraction, p.info.rtpTimestamp,
               p.info.packetCount, p.info.octetCount];
    var blocks := JoinMap(SerializeBlock, p.blocks).value;
    var rest := content[24 + |blocks|..];
    RoundTrip.BlocksRoundTrip(p.blocks, rest);
    assert forall i :: 0 <= i < 6 ==> Fits32(ns[i]);
    assert content == Words(ns) + (blocks + rest);
    UnpackPackWords(ns, blocks + rest);
    assert content[24..] == blocks + rest;
  }

  lemma ReceiverIff(content: bytes, p: RtcpPacket)
    requires p.ReceiverReport? && p.padding >= 0
    ensures |p.blocks| < 32 && ReceiverReportBody(content, |p.blocks|, p.padding) == Success(p)
            <==> Begins(content, p)
  {
    hide Words, UnWords, Blocks, JoinMap, UnBE;
    if Begins(content, p) {
      ReceiverPrinted(content, p);
    } else if |p.blocks| < 32 {
      Canonical.ReportsCanonical(content, |p.blocks|, p.padding);
      Canonical.ReportBodyShapes(content, |p.blocks|, p.padding);
    }
  }

  lemma ReceiverPrinted(content: bytes, p: RtcpPacket)
    requires p.ReceiverReport? && p.padding >= 0 && Begins(content, p)
    ensures ReceiverReportBody(content, |p.blocks|, p.padding) == Success(p)
  {
    hide UnBE, Words, Blocks, JoinMap;
    var blocks := JoinMap(SerializeBlock, p.blocks).value;
    var rest := content[4 + |blocks|..];
    RoundTrip.BlocksRoundTrip(p.blocks, rest);
    assert Fits32([p.ssrc][0]);
    assert content == Words([p.ssrc]) + (blocks + rest);
    RoundTrip.FirstWord(p.ssrc, blocks + rest);
    assert content[4..] == blocks + rest;
  }

  lemma ByeIff(content: bytes, p: RtcpPacket)
    requires p.Goodbye? && p.padding >= 0
    ensures |p.sources| < 32 && ByeBody(content, |p.sources|, p.padding) == Success(p) <==> ContentForm(content, p)
  {
    hide ByeBody, ContentForm;
    if ContentForm(content, p) { ByePrinted(content, p); }
    if |p.sources| < 32 && ByeBody(content, |p.sources|, p.padding) == Success(p) { ByeRead(content, p); }
  }

  lemma ByePrinted(content: bytes, p: RtcpPacket)
    requires p.Goodbye? && p.padding >= 0 && ContentForm(content, p)
    ensures |p.sources| < 32 && ByeBody(content, |p.sources|, p.padding) == Success(p)
  {
    hide Words, UnWords;
    var n := 4 * |p.sources|;
    UnpackPackWords(p.sources, content[n..]);
    assert content == Words(p.sources) + content[n..];
    if p.reason.Some? {
      assert content[n] == |p.reason.value|;
      assert content[n + 1..n + 1 + |p.reason.value|] == p.reason.value;
    }
  }

  lemma ByeRead(content: bytes, p: RtcpPacket)
    requires p.Goodbye? && p.padding >= 0
    requires |p.sources| < 32 && ByeBody(content, |p.sources|, p.padding) == Success(p)
    ensures ContentForm(content, p)
  {
    hide Words, UnWords;
    var n := 4 * |p.sources|;
    PackUnpackWords(content, |p.sources|);
    assert Words(p.sources) == content[..n];
    if p.reason.Some? {
      assert content[..n] + [content[n]] + content[n + 1..n + 1 + content[n]] == content[..n + 1 + content[n]];
    }
  }

  /** A content of a packet's type and count is read as that packet exactly when it is one of its forms. */
  lemma BodyIff(content: bytes, p: RtcpPacket)
    requires p.padding >= 0
    ensures 0 <= CountOf(p) < 32 && Body(TypeOf(p), CountOf(p), content, p.padding) == Success(p)
            <==> ContentForm(content, p)
  {
    hide SenderReportBody, ReceiverReportBody, ByeBody, Begins, Chunks, ChunksForm, UnBE;
    match p
    case SenderReport(_, _, _, _) => SenderIff(content, p);
    case ReceiverReport(_, _, _) => ReceiverIff(content, p);
    case SourceDescription(chunks, _) => ChunksIff(content, chunks);
    case Goodbye(_, _, _) => ByeIff(content, p);
    case ApplicationDefined(_, _, _, _, _) =>
  }

  // ---------------------------------------------------------------- packets and buffers

  /** What is read has the type and the count of the header. */
  lemma BodyTyped(packetType: byte, count: nat, content: bytes, padding: nat)
    requires Body(packetType, count, content, padding).Success?
    ensures var p := Body(packetType, count, content, padding).value;
            TypeOf(p) == packetType && CountOf(p) == count && p.padding == padding
  {
    hide UnBE, UnWords, Chunks, JoinMap;
    if packetType == SDES { Canonical.ChunksCanonical(content, count); }
  }

  lemma FrameIff(s: bytes, p: RtcpPacket)
    ensures NextStep(s, true) == Take(|s|, Some(p)) <==> WireForm(s, p)
  {
    hide Body, ContentForm, TypeOf, CountOf, UnBE;
    if |s| >= 4 && |s| == 4 * (U16(s, 2) + 1) && s[0] / 64 == 2 {
      var body := s[4..|s|];
      if PaddingCount(s[0] / 32 % 2 == 1, body, true).Success? {
        var padding := PaddingCount(s[0] / 32 % 2 == 1, body, true).value;
        var content := body[..|body| - padding];
        assert content == s[4..|s| - padding];
        var r := Body(s[1], s[0] % 32, content, padding);
        if r.Success? { BodyTyped(s[1], s[0] % 32, content, padding); }
        if p.padding == padding { BodyIff(content, p); }
      }
    }
  }

  /** A buffer is accepted as a single packet exactly when one step takes all of it. */
  lemma SingleIff(s: bytes, p: RtcpPacket)
    ensures Compound(s, true) == Success([p]) <==> NextStep(s, true) == Take(|s|, Some(p))
  {
    hide NextStep;
    if NextStep(s, true) == Take(|s|, Some(p)) {
      assert s[|s|..] == [] && Packets([], true).After([p]) == Run([p], None);
    }
    if Compound(s, true) == Success([p]) {
      Canonical.StrictFront(s);
      var size := NextStep(s, true).size;
      assert |Packets(s[size..], true).items| == 0;
      assert Packets(s, true).items[0] == p;
      if size < |s| { Canonical.StrictFront(s[size..]); }
    }
  }

  ghost predicate AreWireForms(frames: seq<bytes>, ps: seq<RtcpPacket>) {
    |frames| == |ps| && forall i :: 0 <= i < |ps| ==> WireForm(frames[i], ps[i])
  }

  lemma WireFormsIff(frames: seq<bytes>, ps: seq<RtcpPacket>)
    ensures Canonical.FramesOf(frames, ps) <==> AreWireForms(frames, ps)
  {
    hide Compound, NextStep, WireForm;
    if |frames| == |ps| {
      forall i | 0 <= i < |ps|
        ensures Compound(frames[i], true) == Success([ps[i]]) <==> WireForm(frames[i], ps[i])
      {
        SingleIff(frames[i], ps[i]);
        FrameIff(frames[i], ps[i]);
      }
    }
  }

  /**
   * The language of the strict parser: a buffer is accepted as `ps` exactly when it is cut somehow into
   * wire forms of those packets, at least one, in order.
   */
  lemma AcceptedMeansWireForms(data: bytes, ps: seq<RtcpPacket>)
    ensures Compound(data, true) == Success(ps) <==>
      ps != [] && exists frames :: Canonical.Join(frames) == data && AreWireForms(frames, ps)
  {
    hide Compound, AreWireForms;
    Canonical.AcceptedMeansFrames(data, ps);
    forall frames ensures Canonical.FramesOf(frames, ps) <==> AreWireForms(frames, ps) {
      WireFormsIff(frames, ps);
    }
  }
}
