/**
 * parse then build: whatever the parser accepted, rebuilding it gives a buffer that is no longer
 * and parses back to the same packets; dropped profile data, slack and filler do not matter.
 */
module RtcpCanonical {
  import opened Bytes
  import opened Wrappers
  import opened RtcpModel
  import opened RtcpParser
  import opened RtcpBuilder
  import opened RtcpRoundTrip

  // ---------------------------------------------------------------- packet bodies

  lemma BlockCanonical(s: bytes)
    requires |s| >= 24
    ensures SerializeBlock(BlockOfWords(UnWords(s, 6))) == Success(s[..24])
  {
    hide UnWords, Words;
    var w := UnWords(s, 6);
    var rb := BlockOfWords(w);
    assert rb.fractionLost * 0x100_0000 + rb.cumulativeLost % 0x100_0000 == w[1];
    assert [w[0], w[1], w[2], w[3], w[4], w[5]] == w;
    PackUnpackWords(s, 6);
  }

  /** Report blocks are rebuilt byte for byte. */
  lemma {:induction false} BlocksCanonical(s: bytes, rc: nat)
    requires 24 * rc <= |s|
    ensures JoinMap(SerializeBlock, Blocks(s, rc)) == Success(s[..24 * rc])
    decreases rc
  {
    if rc == 0 {
      assert s[..0] == [];
    } else {
      hide SerializeBlock, UnWords, BlockOfWords, Blocks, JoinMap;
      BlockCanonical(s);
      BlocksCanonical(s[24..], rc - 1);
      BlocksStep(s, rc);
      JoinMapFront(SerializeBlock, BlockOfWords(UnWords(s, 6)), Blocks(s[24..], rc - 1));
      assert s[..24] + s[24..][..24 * (rc - 1)] == s[..24 * rc];
    }
  }

  lemma ItemCanonical(s: bytes)
    requires |s| >= 2 && s[0] != 0 && 2 + s[1] <= |s|
    ensures SerializeItem(SdesItem(s[0], s[2..2 + s[1]])) == Success(s[..2 + s[1]])
  {
    assert [s[0], s[1]] + s[2..2 + s[1]] == s[..2 + s[1]];
  }

  /** Items are rebuilt byte for byte, and a null follows them. */
  lemma {:induction false} ItemsCanonical(s: bytes)
    requires Items(s).Success?
    ensures var r := Items(s).value;
            JoinMap(SerializeItem, r.value) == Success(s[..r.used - 1]) && s[r.used - 1] == 0
    decreases |s|
  {
    hide SerializeItem;
    if s[0] != 0 {
      var size := 2 + s[1] as int;
      ItemsCanonical(s[size..]);
      var r, rest := Items(s).value, Items(s[size..]).value;
      assert r.value[1..] == rest.value;
      ItemCanonical(s);
      assert s[..size] + s[size..][..rest.used - 1] == s[..r.used - 1];
    }
  }

  /** A chunk is rebuilt to the same length; only its filler may differ. */
  lemma ChunkCanonical(s: bytes)
    requires Chunk(s).Success?
    ensures var r := Chunk(s).value; SerializeChunk(r.value).Success? && |SerializeChunk(r.value).value| == r.used
  {
    hide Items, JoinMap, UnBE;
    ItemsCanonical(s[4..]);
  }

  lemma {:induction false} ChunksCanonical(s: bytes, sc: nat)
    requires Chunks(s, sc).Success?
    ensures var r := JoinMap(SerializeChunk, Chunks(s, sc).value);
            r.Success? && |r.value| <= |s| && |r.value| % 4 == 0
            && |Chunks(s, sc).value| == sc
    decreases sc
  {
    hide Chunk, SerializeChunk;
    if sc > 0 {
      var chunk := Chunk(s).value;
      ChunkCanonical(s);
      ChunksCanonical(s[chunk.used..], sc - 1);
      assert Chunks(s, sc).value[1..] == Chunks(s[chunk.used..], sc - 1).value;
    }
  }

  /** The one thing besides padding that stops a parsed packet from being rebuilt. */
  predicate NameIsAscii(p: RtcpPacket) {
    p.ApplicationDefined? ==> IsAscii(p.name)
  }

  /** The size of a body once structurally aligned. */
  function AlignedSize(body: bytes): nat {
    |body| + Pad4(|body|)
  }

  lemma ReportsCanonical(content: bytes, rc: nat, padding: nat)
    requires rc <= MAX_COUNT
    ensures SenderReportBody(content, rc, padding).Success? ==>
      var r := Serialize(SenderReportBody(content, rc, padding).value);
      r == Success(Parts(rc, SR, content[..24 + 24 * rc]))
    ensures ReceiverReportBody(content, rc, padding).Success? ==>
      var r := Serialize(ReceiverReportBody(content, rc, padding).value);
      r == Success(Parts(rc, RR, content[..4 + 24 * rc]))
  {
    hide Words, UnWords, Blocks, JoinMap, UnBE;
    if SenderReportBody(content, rc, padding).Success? {
      var w := UnWords(content, 6);
      assert [w[0], w[1], w[2], w[3], w[4], w[5]] == w;
      PackUnpackWords(content, 6);
      BlocksCanonical(content[24..], rc);
      assert content[..24] + content[24..][..24 * rc] == content[..24 + 24 * rc];
    }
    if ReceiverReportBody(content, rc, padding).Success? {
      FirstWordPacked(content);
      BlocksCanonical(content[4..], rc);
      assert content[..4] + content[4..][..24 * rc] == content[..4 + 24 * rc];
    }
  }

  lemma FirstWordPacked(s: bytes)
    requires |s| >= 4
    ensures PackWords([U32(s, 0)]) == Success(s[..4])
  {
    PackUnpackWords(s, 1);
    assert UnWords(s, 1) == [U32(s, 0)];
  }

  lemma ByeCanonical(content: bytes, sc: nat, padding: nat)
    requires sc <= MAX_COUNT && |content| % 4 == 0 && ByeBody(content, sc, padding).Success?
    ensures var r := Serialize(ByeBody(content, sc, padding).value);
            r.Success? && r.value.count == sc && AlignedSize(r.value.body) <= |content|
  {
    hide Words, UnWords;
    PackUnpackWords(content, sc);
  }

  lemma AppCanonical(content: bytes, subtype: nat, padding: nat)
    requires subtype <= MAX_COUNT && |content| % 4 == 0 && AppBody(content, subtype, padding).Success?
    ensures var p := AppBody(content, subtype, padding).value;
            IsAligned(p) && (Serialize(p).Success? <==> NameIsAscii(p))
            && (NameIsAscii(p) ==> Serialize(p) == Success(Parts(subtype, APP, content)))
  {
    hide UnBE;
    FirstWordPacked(content);
    AsciiDecoded(content[4..8]);
    assert content[..4] + content[4..8] + content[8..] == content;
  }

  lemma BodyCanonical(packetType: byte, count: nat, content: bytes, padding: nat)
    requires count <= MAX_COUNT && |content| % 4 == 0 && Body(packetType, count, content, padding).Success?
    ensures var p := Body(packetType, count, content, padding).value;
            IsAligned(p) && (Serialize(p).Success? <==> NameIsAscii(p))
            && (NameIsAscii(p) ==> AlignedSize(Serialize(p).value.body) <= |content|)
  {
    hide ReceiverReportBody, SenderReportBody, ByeBody, AppBody, Serialize, Words, Blocks, Chunks, JoinMap;
    if packetType == SR || packetType == RR {
      ReportsCanonical(content, count, padding);
      ReportBodyShapes(content, count, padding);
    } else if packetType == SDES {
      SdesCanonical(content, count, padding);
    } else if packetType == BYE {
      ByeCanonical(content, count, padding);
      assert ByeBody(content, count, padding).value.Goodbye? by { ByeBodyShape(content, count, padding); }
    } else {
      AppCanonical(content, count, padding);
    }
  }

  lemma SdesCanonical(content: bytes, sc: nat, padding: nat)
    requires sc <= MAX_COUNT && SdesBody(content, sc, padding).Success?
    ensures var r := Serialize(SdesBody(content, sc, padding).value);
            r.Success? && AlignedSize(r.value.body) <= |content|
  {
    hide JoinMap, Chunks;
    ChunksCanonical(content, sc);
  }

  lemma ReportBodyShapes(content: bytes, rc: nat, padding: nat)
    ensures SenderReportBody(content, rc, padding).Success? ==>
      SenderReportBody(content, rc, padding).value.SenderReport? && 24 + 24 * rc <= |content|
    ensures ReceiverReportBody(content, rc, padding).Success? ==>
      ReceiverReportBody(content, rc, padding).value.ReceiverReport? && 4 + 24 * rc <= |content|
  {
    hide Blocks, UnWords, UnBE;
  }

  lemma ByeBodyShape(content: bytes, sc: nat, padding: nat)
    requires ByeBody(content, sc, padding).Success?
    ensures ByeBody(content, sc, padding).value.Goodbye?
  {
    hide UnWords;
  }

  // ---------------------------------------------------------------- one packet

  /** A packet taken off the wire is rebuilt in no more bytes, if it can be rebuilt at all. */
  lemma StepCanonical(data: bytes, strict: bool)
    requires NextStep(data, strict).Take? && NextStep(data, strict).packet.Some?
    ensures var step := NextStep(data, strict);
            var p := step.packet.value;
            (BuildOne(p).Success? <==> p.padding % 4 == 0 && NameIsAscii(p))
            && (BuildOne(p).Success? ==> |BuildOne(p).value| <= step.size && IsAligned(p))
  {
    hide Body, Serialize, UnBE, BE;
    var step := NextStep(data, strict);
    var p := step.packet.value;
    var body := data[4..step.size];
    var content := body[..|body| - p.padding];
    if p.padding % 4 == 0 {
      BodyCanonical(data[1], data[0] % 32, content, p.padding);
    }
  }

  // ---------------------------------------------------------------- the compound packet

  predicate Rebuildable(p: RtcpPacket) {
    p.padding % 4 == 0 && NameIsAscii(p)
  }

  lemma {:induction false} PacketsCanonical(data: bytes, strict: bool)
    ensures var ps := Packets(data, strict).items;
            (Build(ps).Success? <==> forall i :: 0 <= i < |ps| ==> Rebuildable(ps[i]))
            && (Build(ps).Success? ==> |Build(ps).value| <= |data| && AlignedAll(ps) == ps)
    decreases |data|
  {
    hide NextStep, BuildOne, IsAligned, Aligned, Rebuildable;
    if data != [] && NextStep(data, strict).Take? {
      var step := NextStep(data, strict);
      PacketsCanonical(data[step.size..], strict);
      var ps, rest := Packets(data, strict).items, Packets(data[step.size..], strict).items;
      if step.packet.Some? {
        var p := step.packet.value;
        StepCanonical(data, strict);
        AlignedIsIdentity(p);
        RebuildableMeans(p);
        assert ps == [p] + rest && ps[1..] == rest;
        assert (forall i :: 0 <= i < |ps| ==> Rebuildable(ps[i]))
            <==> Rebuildable(p) && forall i :: 0 <= i < |rest| ==> Rebuildable(rest[i]) by {
          assert forall i :: 0 < i < |ps| ==> ps[i] == rest[i - 1];
          assert forall i :: 0 <= i < |rest| ==> rest[i] == ps[i + 1];
        }
      } else {
        assert ps == rest by { assert [] + rest == rest; }
      }
    }
  }

  lemma RebuildableMeans(p: RtcpPacket)
    ensures Rebuildable(p) <==> p.padding % 4 == 0 && NameIsAscii(p)
  {
  }

  /** A strictly accepted buffer holds at least one packet. */
  lemma StrictIsNonEmpty(data: bytes)
    requires Compound(data, true).Success?
    ensures Compound(data, true).value != []
  {
    hide NextStep;
    var step := NextStep(data, true);
    assert step.Take?;
  }

  /**
   * Canonicalisation. What either mode returned can be rebuilt exactly when every padding count is a
   * multiple of 4 and every APP name is ASCII; then the rebuilt buffer is no longer than the input
   * and both modes read the same packets back from it.
   */
  lemma Canonicalisation(data: bytes, strict: bool, again: bool)
    requires Compound(data, strict).Success?
    ensures var ps := Compound(data, strict).value;
            (Build(ps).Success? <==> forall i :: 0 <= i < |ps| ==> Rebuildable(ps[i]))
            && (Build(ps).Success? ==> |Build(ps).value| <= |data|)
            && (Build(ps).Success? && ps != [] ==> Compound(Build(ps).value, again) == Success(ps))
            && (strict ==> ps != [])
  {
    hide Packets, Rebuildable, JoinMap;
    PacketsCanonical(data, strict);
    var ps := Compound(data, strict).value;
    if Build(ps).Success? && ps != [] {
      CompoundRoundTrip(ps, again);
    }
    if strict { StrictIsNonEmpty(data); }
  }

  /** Rebuilding is idempotent: the canonical buffer is rebuilt to itself. */
  lemma CanonicalFormIsStable(data: bytes)
    requires Compound(data, true).Success? && Build(Compound(data, true).value).Success?
    ensures var s := Build(Compound(data, true).value).value;
            Compound(s, true).Success? && Build(Compound(s, true).value) == Success(s)
  {
    Canonicalisation(data, true, true);
  }

  // ---------------------------------------------------------------- concatenation

  /** What the strict parser takes does not depend on the bytes that follow, nor on the mode. */
  lemma StepIsLocal(a: bytes, b: bytes, strict: bool)
    requires NextStep(a, true).Take?
    ensures NextStep(a + b, strict) == NextStep(a, true)
  {
    hide Body, UnBE;
    var size := NextStep(a, true).size;
    assert (a + b)[2..4] == a[2..4];
    assert (a + b)[4..size] == a[4..size];
  }

  lemma {:induction false} PacketsConcat(a: bytes, b: bytes, strict: bool)
    requires Packets(a, true).error.None?
    ensures Packets(a + b, strict) == Packets(b, strict).After(Packets(a, true).items)
    decreases |a|
  {
    hide NextStep;
    if a == [] {
      assert a + b == b;
      Packets(b, strict).AfterNothing();
    } else {
      var step := NextStep(a, true);
      StepIsLocal(a, b, strict);
      assert (a + b)[step.size..] == a[step.size..] + b;
      PacketsConcat(a[step.size..], b, strict);
      Packets(b, strict).AfterTwice(OptionToSeq(step.packet), Packets(a[step.size..], true).items);
    }
  }

  /**
   * Concatenation. After a strictly accepted buffer, parsing continues as if it started there: the whole is
   * accepted exactly when the second part is, and then the packets are concatenated. Only what the first
   * check refuses at a start may follow: nothing at all, or leniently up to three bytes.
   */
  lemma CompoundConcat(a: bytes, b: bytes, strict: bool)
    requires Compound(a, true).Success?
    ensures Compound(a + b, strict) ==
      if b == [] || (!strict && |b| < 4) then Compound(a, true)
      else if Compound(b, strict).Failure? then Compound(b, strict)
      else Success(Compound(a, true).value + Compound(b, strict).value)
  {
    PacketsConcat(a, b, strict);
    hide Body, PaddingCount;
    var ps := Packets(a, true).items;
    assert ps + [] == ps;
  }

  function Join(frames: seq<bytes>): bytes {
    if frames == [] then [] else frames[0] + Join(frames[1..])
  }

  /** Frames that are accepted one by one, each as the packet at its place. */
  ghost predicate FramesOf(frames: seq<bytes>, ps: seq<RtcpPacket>) {
    |frames| == |ps| && forall i :: 0 <= i < |ps| ==> Compound(frames[i], true) == Success([ps[i]])
  }

  lemma FramesFront(frame: bytes, p: RtcpPacket, frames: seq<bytes>, ps: seq<RtcpPacket>)
    ensures FramesOf([frame] + frames, [p] + ps) <==> Compound(frame, true) == Success([p]) && FramesOf(frames, ps)
  {
    hide Compound;
    var fs, qs := [frame] + frames, [p] + ps;
    assert fs[0] == frame && qs[0] == p;
    assert forall i :: 0 <= i < |ps| ==> qs[i + 1] == ps[i];
    assert forall i :: 0 <= i < |frames| ==> fs[i + 1] == frames[i];
    if FramesOf(fs, qs) {
      forall i | 0 <= i < |ps| ensures Compound(frames[i], true) == Success([ps[i]]) {
        assert Compound(fs[i + 1], true) == Success([qs[i + 1]]);
      }
    }
  }

  /** The bytes a strict step takes are an accepted buffer of their own. */
  lemma StepIsFrame(data: bytes)
    requires NextStep(data, true).Take?
    ensures var step := NextStep(data, true);
            Compound(data[..step.size], true) == Success([step.packet.value])
  {
    hide Body, UnBE;
    var step := NextStep(data, true);
    var frame := data[..step.size];
    assert frame[2..4] == data[2..4] && frame[4..step.size] == data[4..step.size];
    assert NextStep(frame, true) == step;
    hide NextStep;
    var p := step.packet.value;
    assert frame[step.size..] == [] && [p] + [] == [p];
    assert Packets(frame, true) == Packets([], true).After([p]);
  }

  lemma StrictFront(data: bytes)
    requires data != [] && Packets(data, true).error.None?
    ensures var step := NextStep(data, true);
            step.Take?
            && Packets(data, true).items == [step.packet.value] + Packets(data[step.size..], true).items
            && Packets(data[step.size..], true).error.None?
  {
    hide NextStep;
  }

  lemma JoinFront(data: bytes, size: nat, rest: seq<bytes>)
    requires size <= |data| && Join(rest) == data[size..]
    ensures Join([data[..size]] + rest) == data
  {
    assert ([data[..size]] + rest)[1..] == rest;
    assert data[..size] + data[size..] == data;
  }

  lemma {:induction false} PacketsSplit(data: bytes) returns (frames: seq<bytes>)
    requires Packets(data, true).error.None?
    ensures Join(frames) == data && FramesOf(frames, Packets(data, true).items)
    decreases |data|
  {
    if data == [] {
      frames := [];
    } else {
      hide NextStep, FramesOf, Compound, Packets, Join;
      StrictFront(data);
      StepIsFrame(data);
      var step := NextStep(data, true);
      var rest := PacketsSplit(data[step.size..]);
      frames := [data[..step.size]] + rest;
      JoinFront(data, step.size, rest);
      FramesFront(data[..step.size], step.packet.value, rest, Packets(data[step.size..], true).items);
    }
  }

  lemma {:induction false} PacketsJoined(frames: seq<bytes>, ps: seq<RtcpPacket>)
    requires FramesOf(frames, ps)
    ensures Packets(Join(frames), true) == Run(ps, None)
  {
    if frames != [] {
      hide Packets, FramesOf;
      var rest := Join(frames[1..]);
      assert [frames[0]] + frames[1..] == frames && [ps[0]] + ps[1..] == ps by { SameLength(frames, ps); }
      FramesFront(frames[0], ps[0], frames[1..], ps[1..]);
      PacketsConcat(frames[0], rest, true);
      PacketsJoined(frames[1..], ps[1..]);
    }
  }

  lemma SameLength(frames: seq<bytes>, ps: seq<RtcpPacket>)
    requires FramesOf(frames, ps)
    ensures |frames| == |ps|
  {
  }

  /**
   * What strict acceptance means: a buffer is read as `ps` exactly when it is the concatenation of at
   * least one frame, each accepted by itself as one of them, in order.
   */
  lemma AcceptedMeansFrames(data: bytes, ps: seq<RtcpPacket>)
    ensures Compound(data, true) == Success(ps)
            <==> ps != [] && exists frames :: Join(frames) == data && FramesOf(frames, ps)
  {
    hide Packets, FramesOf;
    if Compound(data, true) == Success(ps) {
      var frames := PacketsSplit(data);
      assert Join(frames) == data && FramesOf(frames, ps);
      StrictIsNonEmpty(data);
    }
    if frames :| ps != [] && Join(frames) == data && FramesOf(frames, ps) {
      PacketsJoined(frames, ps);
      SameLength(frames, ps);
      assert [frames[0]] + frames[1..] == frames && [ps[0]] + ps[1..] == ps;
      FramesFront(frames[0], ps[0], frames[1..], ps[1..]);
      assert |data| >= |frames[0]| >= 4;
    }
  }

  // ---------------------------------------------------------------- lenient and strict

  /** Lenient parsing takes what strict parsing takes, and never raises past the first check. */
  lemma {:induction false} LenientRefinesStrict(data: bytes)
    ensures Packets(data, true).items <= Packets(data, false).items
    ensures Packets(data, true).error.None? ==> Packets(data, false) == Packets(data, true)
    ensures Packets(data, false).error.None?
    decreases |data|
  {
    hide NextStep;
    if data != [] {
      var strictStep, step := NextStep(data, true), NextStep(data, false);
      if step.Take? { LenientRefinesStrict(data[step.size..]); }
      if strictStep.Take? {
        StepIsLocal(data, [], false);
        assert data + [] == data;
      }
    }
  }

  /** Strict success is lenient success with the same packets; lenient fails only below 4 bytes. */
  lemma LenientAcceptsMore(data: bytes)
    ensures Compound(data, true).Success? ==> Compound(data, false) == Compound(data, true)
    ensures Compound(data, false).Failure? <==> |data| < 4
    ensures Compound(data, false).Failure? ==> Compound(data, false).error == BufferTooShort
  {
    hide Packets;
    LenientRefinesStrict(data);
  }
}
