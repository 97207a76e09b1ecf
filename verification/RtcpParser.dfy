/** The compound RTCP parser, strict and lenient (src/rtpkit/parser/rtcp_parser.py). */
module RtcpParser {
  import opened Bytes
  import opened Wrappers
  import opened RtcpModel

  const HEADER_SIZE := 4

  // ---------------------------------------------------------------- packet bodies

  /** A report block's six words; the loss count is a signed 24-bit number. */
  function BlockOfWords(w: seq<nat>): ReportBlock
    requires |w| == 6
  {
    var lost: int := w[1] % 0x100_0000;
    ReportBlock(w[0], w[1] / 0x100_0000, if lost >= 0x80_0000 then lost - 0x100_0000 else lost,
                w[2], w[3], w[4], w[5])
  }

  function Blocks(s: bytes, rc: nat): (bs: seq<ReportBlock>)
    requires 24 * rc <= |s|
    ensures |bs| == rc
    decreases rc
  {
    if rc == 0 then [] else [BlockOfWords(UnWords(s, 6))] + Blocks(s[24..], rc - 1)
  }

  function ReportBlocks(s: bytes, rc: nat): Result<seq<ReportBlock>, RtcpError> {
    if |s| < 24 * rc then Failure(MalformedPacket) else Success(Blocks(s, rc))
  }

  function SenderReportBody(content: bytes, rc: nat, padding: nat): Result<RtcpPacket, RtcpError> {
    if |content| < 24 then Failure(MalformedPacket) else
      var w := UnWords(content, 6);
      var blocks :- ReportBlocks(content[24..], rc);
      Success(SenderReport(w[0], SenderInfo(w[1], w[2], w[3], w[4], w[5]), blocks, padding))
  }

  function ReceiverReportBody(content: bytes, rc: nat, padding: nat): Result<RtcpPacket, RtcpError> {
    if |content| < 4 then Failure(MalformedPacket) else
      var blocks :- ReportBlocks(content[4..], rc);
      Success(ReceiverReport(U32(content, 0), blocks, padding))
  }

  /** What a stretch of bytes was read as, and how many of them were used. */
  datatype Read<+T> = Read(value: T, used: nat)

  /** The items of one chunk, up to and including the null that ends them. */
  function Items(s: bytes): (r: Result<Read<seq<SdesItem>>, RtcpError>)
    ensures r.Success? ==> 1 <= r.value.used <= |s|
    decreases |s|
  {
    if |s| == 0 then Failure(MalformedPacket)
    else if s[0] == 0 then Success(Read([], 1))
    else if |s| < 2 || 2 + s[1] > |s| then Failure(MalformedPacket)
    else
      var size := 2 + s[1] as int;
      var rest :- Items(s[size..]);
      Success(Read([SdesItem(s[0], s[2..size])] + rest.value, size + rest.used))
  }

  /** One chunk: an SSRC, its items, and filler up to a 4-byte boundary counted from the chunk's start. */
  function Chunk(s: bytes): (r: Result<Read<SdesChunk>, RtcpError>)
    ensures r.Success? ==> 4 < r.value.used <= |s| && r.value.used % 4 == 0
  {
    if |s| < 4 then Failure(MalformedPacket) else
      var items :- Items(s[4..]);
      var used := 4 + items.used;
      if used + Pad4(used) > |s| then Failure(MalformedPacket)
      else Success(Read(SdesChunk(U32(s, 0), items.value), used + Pad4(used)))
  }

  function Chunks(s: bytes, sc: nat): Result<seq<SdesChunk>, RtcpError>
    decreases sc
  {
    if sc == 0 then Success([]) else
      var chunk :- Chunk(s);
      var rest :- Chunks(s[chunk.used..], sc - 1);
      Success([chunk.value] + rest)
  }

  function SdesBody(content: bytes, sc: nat, padding: nat): Result<RtcpPacket, RtcpError> {
    var chunks :- Chunks(content, sc);
    Success(SourceDescription(chunks, padding))
  }

  function ByeBody(content: bytes, sc: nat, padding: nat): Result<RtcpPacket, RtcpError> {
    var needed := 4 * sc;
    if |content| < needed then Failure(MalformedPacket)
    else if |content| == needed then Success(Goodbye(UnWords(content, sc), None, padding))
    else if needed + 1 + content[needed] > |content| then Failure(MalformedPacket)
    else Success(Goodbye(UnWords(content, sc),
                         Some(content[needed + 1..needed + 1 + content[needed]]), padding))
  }

  function AppBody(content: bytes, subtype: nat, padding: nat): Result<RtcpPacket, RtcpError> {
    if |content| < 8 then Failure(MalformedPacket)
    else Success(ApplicationDefined(subtype, U32(content, 0), DecodeAscii(content[4..8]), content[8..], padding))
  }

  function Body(packetType: byte, count: nat, content: bytes, padding: nat): (r: Result<RtcpPacket, RtcpError>)
    ensures r.Failure? ==> r.error == MalformedPacket
    ensures r.Success? ==> r.value.padding == padding
  {
    if packetType == SR then SenderReportBody(content, count, padding)
    else if packetType == RR then ReceiverReportBody(content, count, padding)
    else if packetType == SDES then ChunksFailAsMalformed(content, count); SdesBody(content, count, padding)
    else if packetType == BYE then ByeBody(content, count, padding)
    else if packetType == APP then AppBody(content, count, padding)
    else Failure(MalformedPacket)
  }

  lemma {:induction false} ItemsFailAsMalformed(s: bytes)
    ensures Items(s).Failure? ==> Items(s).error == MalformedPacket
    decreases |s|
  {
    if |s| >= 2 && s[0] != 0 && 2 + s[1] <= |s| { ItemsFailAsMalformed(s[2 + s[1]..]); }
  }

  lemma {:induction false} ChunksFailAsMalformed(s: bytes, sc: nat)
    ensures Chunks(s, sc).Failure? ==> Chunks(s, sc).error == MalformedPacket
    decreases sc
  {
    if sc > 0 {
      if |s| >= 4 { ItemsFailAsMalformed(s[4..]); }
      if Chunk(s).Success? { ChunksFailAsMalformed(s[Chunk(s).value.used..], sc - 1); }
    }
  }

  // ---------------------------------------------------------------- the compound packet

  /** What the parser does at the start of `data`: raise, stop without raising, or take `size` bytes. */
  datatype Step = Raise(error: RtcpError) | Stop | Take(size: nat, packet: Option<RtcpPacket>)

  /** The padding count to strip from `body`, or the strict mode's complaint about it. */
  function PaddingCount(flag: bool, body: bytes, strict: bool): (r: Result<nat, RtcpError>)
    ensures r.Success? ==> r.value <= |body|
  {
    if !flag then Success(0)
    else if |body| < 1 || body[|body| - 1] == 0 || body[|body| - 1] > |body| then
      if strict then Failure(MalformedPacket) else Success(0)
    else Success(body[|body| - 1])
  }

  function NextStep(data: bytes, strict: bool): (step: Step)
    ensures step.Take? ==> HEADER_SIZE <= step.size <= |data| && (strict ==> step.packet.Some?)
    ensures step.Raise? ==> strict
    ensures step.Stop? ==> !strict
  {
    if |data| < HEADER_SIZE then
      if strict then Raise(BufferTooShort) else Stop
    else
      var size := (U16(data, 2) + 1) * 4;
      if strict && data[0] / 64 != 2 then Raise(InvalidVersion)
      else if size > |data| then
        if strict then Raise(LengthMismatch) else Stop
      else
        var body := data[4..size];
        match PaddingCount(data[0] / 32 % 2 == 1, body, strict)
        case Failure(e) => Raise(e)
        case Success(padding) =>
          match Body(data[1], data[0] % 32, body[..|body| - padding], padding)
          case Failure(e) => if strict then Raise(e) else Take(size, None)
          case Success(packet) => Take(size, Some(packet))
  }

  /** The packets gathered from `data` until its end, a stop, or an exception. */
  function Packets(data: bytes, strict: bool): Run<RtcpPacket, RtcpError>
    decreases |data|
  {
    if data == [] then Run([], None) else
      match NextStep(data, strict)
      case Raise(e) => Run([], Some(e))
      case Stop => Run([], None)
      case Take(size, packet) => Packets(data[size..], strict).After(OptionToSeq(packet))
  }

  /** What `parse_rtcp` and `parse_rtcp_lenient` return. */
  function Compound(data: bytes, strict: bool): Result<seq<RtcpPacket>, RtcpError> {
    if |data| < HEADER_SIZE then Failure(BufferTooShort) else Packets(data, strict).Collect()
  }

  // ---------------------------------------------------------------- the parser's loops

  lemma BlocksStep(s: bytes, rc: nat)
    requires 0 < rc && 24 * rc <= |s|
    ensures Blocks(s, rc) == [BlockOfWords(UnWords(s, 6))] + Blocks(s[24..], rc - 1)
  {
  }

  method ParseReportBlocks(data: bytes, rc: nat) returns (r: Result<seq<ReportBlock>, RtcpError>)
    ensures r == ReportBlocks(data, rc)
  {
    hide UnWords, Blocks;
    var needed := rc * 24;
    if |data| < needed {
      return Failure(MalformedPacket);
    }
    var blocks := [];
    assert data[0..] == data;
    for i := 0 to rc
      invariant blocks + Blocks(data[24 * i..], rc - i) == Blocks(data, rc)
    {
      var off := 24 * i;
      var w := UnWords(data[off..], 6);
      var fractionLost := w[1] / 0x100_0000;
      var cumulativeLost: int := w[1] % 0x100_0000;
      if cumulativeLost >= 0x80_0000 {
        cumulativeLost := cumulativeLost - 0x100_0000;
      }
      BlocksStep(data[off..], rc - i);
      assert data[off..][24..] == data[off + 24..];
      Append(blocks, BlockOfWords(w), Blocks(data[off + 24..], rc - i - 1));
      blocks := blocks + [ReportBlock(w[0], fractionLost, cumulativeLost, w[2], w[3], w[4], w[5])];
    }
    assert blocks + [] == blocks;
    return Success(blocks);
  }

  /** The inner loop of the SDES parser: one chunk's items, from `start`. */
  method ParseItems(content: bytes, start: nat) returns (r: Result<Read<seq<SdesItem>>, RtcpError>)
    requires start <= |content|
    ensures r == Items(content[start..])
  {
    hide Items;
    var items, pos := [], start;
    PrependReadNothing(Items(content[start..]));
    while true
      invariant start <= pos <= |content|
      invariant Items(content[start..]) == PrependRead(items, pos - start, Items(content[pos..]))
      decreases |content| - pos
    {
      ghost var rest := content[pos..];
      ItemsEnd(items, pos - start, rest);
      if pos >= |content| {
        return Failure(MalformedPacket);
      }
      var itemType := content[pos];
      if itemType == 0 {
        return Success(Read(items, pos + 1 - start));
      }
      if pos + 2 > |content| {
        return Failure(MalformedPacket);
      }
      var itemStart := pos + 2;
      var itemEnd := itemStart + content[pos + 1];
      if itemEnd > |content| {
        return Failure(MalformedPacket);
      }
      ItemsStep(items, pos - start, rest);
      assert rest[2..itemEnd - pos] == content[itemStart..itemEnd];
      assert rest[itemEnd - pos..] == content[itemEnd..];
      items := items + [SdesItem(itemType, content[itemStart..itemEnd])];
      pos := itemEnd;
    }
  }

  method ParseSdes(content: bytes, sc: nat, padding: nat) returns (r: Result<RtcpPacket, RtcpError>)
    ensures r == SdesBody(content, sc, padding)
  {
    hide UnBE, Items, Chunks;
    var chunks, pos := [], 0;
    assert content[0..] == content;
    PrependNothing(Chunks(content, sc));
    for i := 0 to sc
      invariant pos <= |content|
      invariant Chunks(content, sc) == Prepend(chunks, Chunks(content[pos..], sc - i))
    {
      var chunkBegin := pos;
      ghost var here := content[chunkBegin..];
      ChunksStep(chunks, here, sc - i);
      if pos + 4 > |content| {
        return Failure(MalformedPacket);
      }
      var ssrc := U32(content, pos);
      assert content[pos..pos + 4] == here[0..4];
      pos := pos + 4;
      assert content[pos..] == here[4..];
      ItemsFailAsMalformed(here[4..]);
      var items :- ParseItems(content, pos);
      pos := pos + items.used;
      var pad := Pad4(pos - chunkBegin);
      if pos + pad > |content| {
        return Failure(MalformedPacket);
      }
      pos := pos + pad;
      assert Chunk(here) == Success(Read(SdesChunk(ssrc, items.value), pos - chunkBegin));
      assert here[pos - chunkBegin..] == content[pos..];
      chunks := chunks + [SdesChunk(ssrc, items.value)];
    }
    ChunksEnd(chunks, content[pos..]);
    return Success(SourceDescription(chunks, padding));
  }

  ghost function Prepend<T>(xs: seq<T>, r: Result<seq<T>, RtcpError>): Result<seq<T>, RtcpError> {
    if r.Failure? then r else Success(xs + r.value)
  }

  ghost function PrependRead<T>(xs: seq<T>, used: nat, r: Result<Read<seq<T>>, RtcpError>)
    : Result<Read<seq<T>>, RtcpError>
  {
    if r.Failure? then r else Success(Read(xs + r.value.value, used + r.value.used))
  }

  lemma PrependNothing<T>(r: Result<seq<T>, RtcpError>)
    ensures Prepend([], r) == r
  {
    if r.Success? { assert [] + r.value == r.value; }
  }

  lemma PrependReadNothing<T>(r: Result<Read<seq<T>>, RtcpError>)
    ensures PrependRead([], 0, r) == r
  {
    if r.Success? { assert [] + r.value.value == r.value.value; }
  }

  lemma ItemsEnd(items: seq<SdesItem>, used: nat, s: bytes)
    ensures s == [] ==> Items(s) == Failure(MalformedPacket)
    ensures s != [] && s[0] == 0 ==> PrependRead(items, used, Items(s)) == Success(Read(items, used + 1))
    ensures s != [] && s[0] != 0 && (|s| < 2 || 2 + s[1] > |s|) ==> Items(s) == Failure(MalformedPacket)
  {
    assert items + [] == items;
  }

  lemma ItemsStep(items: seq<SdesItem>, used: nat, s: bytes)
    requires |s| >= 2 && s[0] != 0 && 2 + s[1] <= |s|
    ensures var size := 2 + s[1] as int;
            PrependRead(items, used, Items(s))
            == PrependRead(items + [SdesItem(s[0], s[2..size])], used + size, Items(s[size..]))
  {
    var size := 2 + s[1] as int;
    if Items(s[size..]).Success? {
      Append(items, SdesItem(s[0], s[2..size]), Items(s[size..]).value.value);
    }
  }

  lemma ChunksStep(chunks: seq<SdesChunk>, s: bytes, sc: nat)
    requires sc > 0
    ensures Chunk(s).Failure? ==> Prepend(chunks, Chunks(s, sc)) == Failure(MalformedPacket)
    ensures Chunk(s).Success? ==>
      var chunk := Chunk(s).value;
      Prepend(chunks, Chunks(s, sc)) == Prepend(chunks + [chunk.value], Chunks(s[chunk.used..], sc - 1))
  {
    if Chunk(s).Success? {
      var chunk := Chunk(s).value;
      if Chunks(s[chunk.used..], sc - 1).Success? {
        Append(chunks, chunk.value, Chunks(s[chunk.used..], sc - 1).value);
      }
    } else {
      ChunksFailAsMalformed(s, sc);
    }
  }

  lemma ChunksEnd(chunks: seq<SdesChunk>, s: bytes)
    ensures Prepend(chunks, Chunks(s, 0)) == Success(chunks)
  {
    assert chunks + [] == chunks;
  }

  method ParseBye(content: bytes, sc: nat, padding: nat) returns (r: Result<RtcpPacket, RtcpError>)
    ensures r == ByeBody(content, sc, padding)
  {
    var needed := sc * 4;
    if |content| < needed {
      return Failure(MalformedPacket);
    }
    var sources := if sc > 0 then UnWords(content, sc) else [];
    var pos := needed;
    var reason: Option<bytes> := None;
    if pos < |content| {
      var reasonLen := content[pos];
      pos := pos + 1;
      if pos + reasonLen > |content| {
        return Failure(MalformedPacket);
      }
      reason := Some(content[pos..pos + reasonLen]);
    }
    return Success(Goodbye(sources, reason, padding));
  }

  method ParseOne(packetType: byte, count: nat, content: bytes, padding: nat)
    returns (r: Result<RtcpPacket, RtcpError>)
    ensures r == Body(packetType, count, content, padding)
  {
    if packetType == SR {
      if |content| < 24 { return Failure(MalformedPacket); }
      var w := UnWords(content, 6);
      var blocks :- ParseReportBlocks(content[24..], count);
      return Success(SenderReport(w[0], SenderInfo(w[1], w[2], w[3], w[4], w[5]), blocks, padding));
    } else if packetType == RR {
      if |content| < 4 { return Failure(MalformedPacket); }
      var blocks :- ParseReportBlocks(content[4..], count);
      return Success(ReceiverReport(U32(content, 0), blocks, padding));
    } else if packetType == SDES {
      r := ParseSdes(content, count, padding);
    } else if packetType == BYE {
      r := ParseBye(content, count, padding);
    } else if packetType == APP {
      r := AppBody(content, count, padding);
    } else {
      r := Failure(MalformedPacket);
    }
  }

  /** The whole run, given the packets gathered before `here` and the step taken there. */
  ghost function Resume(packets: seq<RtcpPacket>, here: bytes, step: Step, strict: bool): Run<RtcpPacket, RtcpError>
    requires step.Take? ==> step.size <= |here|
  {
    match step
    case Raise(e) => Run(packets, Some(e))
    case Stop => Run(packets, None)
    case Take(size, packet) => Packets(here[size..], strict).After(packets + OptionToSeq(packet))
  }

  /** One turn of the compound loop, with `packets` gathered so far. */
  lemma PacketsStep(packets: seq<RtcpPacket>, here: bytes, strict: bool)
    ensures here == [] ==> Packets(here, strict).After(packets) == Run(packets, None)
    ensures here != [] ==>
      Packets(here, strict).After(packets) == Resume(packets, here, NextStep(here, strict), strict)
  {
    assert packets + [] == packets;
    if here != [] && NextStep(here, strict).Take? {
      var step := NextStep(here, strict);
      Packets(here[step.size..], strict).AfterTwice(packets, OptionToSeq(step.packet));
    }
  }

  method ParseCompound(data: bytes, strict: bool) returns (r: Result<seq<RtcpPacket>, RtcpError>)
    ensures r == Compound(data, strict)
  {
    hide UnBE, Body, Packets;
    var bufLen := |data|;
    if bufLen < HEADER_SIZE {
      return Failure(BufferTooShort);
    }
    var packets, offset := [], 0;
    assert data[0..] == data;
    Packets(data, strict).AfterNothing();
    while offset < bufLen
      invariant offset <= bufLen
      invariant Packets(data, strict) == Packets(data[offset..], strict).After(packets)
    {
      ghost var here := data[offset..];
      PacketsStep(packets, here, strict);
      var remaining := bufLen - offset;
      if remaining < HEADER_SIZE {
        if strict { return Failure(BufferTooShort); }
        return Success(packets);
      }
      var version, paddingFlag, count := data[offset] / 64, data[offset] / 32 % 2 == 1, data[offset] % 32;
      var packetType := data[offset + 1];
      var lengthWords := U16(data, offset + 2);
      assert here[2..4] == data[offset + 2..offset + 4];
      var packetLen := (lengthWords + 1) * 4;
      var packetEnd := offset + packetLen;
      if version != 2 && strict {
        return Failure(InvalidVersion);
      }
      if packetEnd > bufLen {
        if strict { return Failure(LengthMismatch); }
        return Success(packets);
      }
      var body := data[offset + HEADER_SIZE..packetEnd];
      assert here[4..packetLen] == body;
      var paddingSize, contentEnd := 0, |body|;
      if paddingFlag {
        if |body| < 1 {
          if strict { return Failure(MalformedPacket); }
        } else {
          var padCount := body[|body| - 1];
          if padCount == 0 || padCount > |body| {
            if strict { return Failure(MalformedPacket); }
          } else {
            paddingSize := padCount;
            contentEnd := |body| - padCount;
          }
        }
      }
      assert PaddingCount(paddingFlag, body, strict) == Success(paddingSize);
      var content := body[..contentEnd];
      var parsed := ParseOne(packetType, count, content, paddingSize);
      if parsed.Failure? {
        if strict { return Failure(parsed.error); }
        assert packets + [] == packets;
      } else {
        packets := packets + [parsed.value];
      }
      assert here[packetLen..] == data[packetEnd..];
      offset := packetEnd;
    }
    assert data[offset..] == [];
    PacketsStep(packets, [], strict);
    return Success(packets);
  }
}
