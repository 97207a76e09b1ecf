/**
 * What either mode of the RTCP parser makes of every buffer, said without parsing: lenient parsing returns
 * the packets of the frames that can be read and passes over the others; strict parsing raises over the
 * first frame that it cannot take, with the error for what is wrong with it.
 */
module RtcpOutcomes {
  import opened Bytes
  import opened Wrappers
  import opened RtcpModel
  import opened RtcpParser
  import opened RtcpReference
  import Canonical = RtcpCanonical

  /** The type byte of each packet shape: section 12.1 of RFC 3550. */
  lemma TypeNumbers(p: RtcpPacket)
    ensures TypeOf(p) == 200 <==> p.SenderReport?
    ensures TypeOf(p) == 201 <==> p.ReceiverReport?
    ensures TypeOf(p) == 202 <==> p.SourceDescription?
    ensures TypeOf(p) == 203 <==> p.Goodbye?
    ensures TypeOf(p) == 204 <==> p.ApplicationDefined?
  {
  }

  // ---------------------------------------------------------------- frames

  /** Exactly as long as its length field says, whatever is in it. */
  predicate IsFrame(s: bytes) {
    |s| >= 4 && |s| == 4 * (U16(s, 2) + 1)
  }

  /** Too short for a header, or declaring more than is left. */
  predicate IsRemainder(s: bytes) {
    |s| < 4 || 4 * (U16(s, 2) + 1) > |s|
  }

  ghost predicate AreFrames(frames: seq<bytes>) {
    forall i :: 0 <= i < |frames| ==> IsFrame(frames[i])
  }

  lemma FirstFrame(data: bytes)
    requires !IsRemainder(data)
    ensures var size := 4 * (U16(data, 2) + 1);
            4 <= size <= |data| && IsFrame(data[..size])
  {
    var size := 4 * (U16(data, 2) + 1);
    assert data[..size][2..4] == data[2..4];
  }

  /** Every buffer is whole frames and a remainder. */
  lemma {:induction false} CutIntoFrames(data: bytes) returns (frames: seq<bytes>, rest: bytes)
    ensures AreFrames(frames) && IsRemainder(rest) && Canonical.Join(frames) + rest == data
    decreases |data|
  {
    hide U16;
    if IsRemainder(data) {
      frames, rest := [], data;
      assert [] + data == data;
    } else {
      FirstFrame(data);
      var size := 4 * (U16(data, 2) + 1);
      var more, r := CutIntoFrames(data[size..]);
      frames, rest := [data[..size]] + more, r;
      assert frames[1..] == more;
      assert Canonical.Join(frames) + rest == data[..size] + (Canonical.Join(more) + rest);
      assert data == data[..size] + data[size..];
    }
  }

  // ---------------------------------------------------------------- lenient parsing

  /** The padding lenient parsing believes in: none where the count is missing, zero or too large. */
  function BelievedPadding(s: bytes): (n: nat)
    requires |s| >= 4
    ensures n <= |s| - 4
  {
    if s[0] / 32 % 2 == 1 && |s| > 4 && 0 < s[|s| - 1] <= |s| - 4 then s[|s| - 1] else 0
  }

  /** A frame of any version that holds the packet. */
  predicate LenientForm(s: bytes, p: RtcpPacket) {
    && IsFrame(s) && s[0] % 32 == CountOf(p) && s[1] == TypeOf(p)
    && p.padding == BelievedPadding(s) && ContentForm(s[4..|s| - p.padding], p)
  }

  lemma PaddingIsBelieved(s: bytes)
    requires IsFrame(s)
    ensures PaddingCount(s[0] / 32 % 2 == 1, s[4..], false) == Success(BelievedPadding(s))
  {
    hide U16;
    assert |s| > 4 ==> s[4..][|s| - 5] == s[|s| - 1];
  }

  /** How a frame's content is read once its padding is off. */
  function FrameBody(s: bytes): Result<RtcpPacket, RtcpError>
    requires IsFrame(s)
  {
    Body(s[1], s[0] % 32, s[4..|s| - BelievedPadding(s)], BelievedPadding(s))
  }

  lemma FrameBodyIff(s: bytes, p: RtcpPacket)
    requires IsFrame(s)
    ensures FrameBody(s) == Success(p) <==> LenientForm(s, p)
  {
    hide Body, ContentForm, TypeOf, CountOf, U16, BelievedPadding;
    var padding := BelievedPadding(s);
    var content := s[4..|s| - padding];
    if FrameBody(s).Success? { BodyTyped(s[1], s[0] % 32, content, padding); }
    if p.padding == padding { BodyIff(content, p); }
  }

  /** Lenient parsing takes a frame whole, whatever follows it, with its packet if it holds one. */
  lemma FrameStep(s: bytes, rest: bytes)
    requires IsFrame(s)
    ensures NextStep(s + rest, false) ==
      Take(|s|, if FrameBody(s).Success? then Some(FrameBody(s).value) else None)
  {
    hide Body, UnBE, BelievedPadding;
    var data := s + rest;
    assert data[2..4] == s[2..4];
    assert data[4..|s|] == s[4..];
    PaddingIsBelieved(s);
    assert s[4..][..|s[4..]| - BelievedPadding(s)] == s[4..|s| - BelievedPadding(s)];
  }

  lemma RemainderStops(rest: bytes)
    requires IsRemainder(rest)
    ensures Packets(rest, false) == Run([], None)
  {
    hide U16;
  }

  /** The packets of the frames that hold one, in order. */
  ghost predicate Holds(frames: seq<bytes>, ps: seq<RtcpPacket>) {
    if frames == [] then ps == []
    else if ps != [] && LenientForm(frames[0], ps[0]) then Holds(frames[1..], ps[1..])
    else (forall p :: !LenientForm(frames[0], p)) && Holds(frames[1..], ps)
  }

  lemma {:induction false} FramesAreRead(frames: seq<bytes>, rest: bytes)
    requires AreFrames(frames) && IsRemainder(rest)
    ensures Packets(Canonical.Join(frames) + rest, false).error.None?
    ensures Holds(frames, Packets(Canonical.Join(frames) + rest, false).items)
  {
    hide NextStep, LenientForm, IsFrame, IsRemainder, FrameBody;
    if frames == [] {
      assert [] + rest == rest;
      RemainderStops(rest);
    } else {
      var s, more := frames[0], Canonical.Join(frames[1..]) + rest;
      assert IsFrame(s);
      assert |s| >= 4 by { FrameSize(s); }
      assert Canonical.Join(frames) + rest == s + more;
      assert (s + more)[|s|..] == more;
      FrameStep(s, more);
      FramesAreRead(frames[1..], rest);
      var ps, later := Packets(s + more, false).items, Packets(more, false).items;
      if FrameBody(s).Success? {
        FrameBodyIff(s, FrameBody(s).value);
        assert ps == [FrameBody(s).value] + later;
        assert ps[1..] == later;
      } else {
        forall p ensures !LenientForm(s, p) { FrameBodyIff(s, p); }
        assert ps == [] + later == later;
      }
    }
  }

  lemma FrameSize(s: bytes)
    requires IsFrame(s)
    ensures |s| >= 4
  {
  }

  /** A frame holds at most one packet. */
  lemma OnePacket(s: bytes, p: RtcpPacket, q: RtcpPacket)
    requires LenientForm(s, p) && LenientForm(s, q)
    ensures p == q
  {
    hide FrameBody, ContentForm;
    FrameBodyIff(s, p);
    FrameBodyIff(s, q);
  }

  lemma {:induction false} HoldsOnce(frames: seq<bytes>, ps: seq<RtcpPacket>, qs: seq<RtcpPacket>)
    requires Holds(frames, ps) && Holds(frames, qs)
    ensures ps == qs
  {
    hide LenientForm;
    if frames != [] {
      if ps != [] && LenientForm(frames[0], ps[0]) {
        assert qs != [] && LenientForm(frames[0], qs[0]);
        OnePacket(frames[0], ps[0], qs[0]);
        HoldsOnce(frames[1..], ps[1..], qs[1..]);
        assert ps == [ps[0]] + ps[1..] && qs == [qs[0]] + qs[1..];
      } else {
        HoldsOnce(frames[1..], ps, qs);
      }
    }
  }

  ghost predicate IsCut(data: bytes, frames: seq<bytes>, rest: bytes) {
    AreFrames(frames) && IsRemainder(rest) && Canonical.Join(frames) + rest == data
  }

  /**
   * What lenient parsing returns: of a buffer cut into frames and a remainder, the packets of exactly the
   * frames that hold one, in order. Frames of other types or with malformed contents are passed over.
   */
  lemma LenientMeansFrames(data: bytes, ps: seq<RtcpPacket>)
    ensures Compound(data, false) == Success(ps) <==>
      |data| >= 4 && exists frames, rest :: IsCut(data, frames, rest) && Holds(frames, ps)
  {
    hide Packets, Holds, AreFrames, IsRemainder;
    var frames, rest := CutIntoFrames(data);
    assert IsCut(data, frames, rest);
    forall fs, r | IsCut(data, fs, r)
      ensures Packets(data, false).error.None? && Holds(fs, Packets(data, false).items)
    {
      FramesAreRead(fs, r);
    }
    forall fs, r | IsCut(data, fs, r) && Holds(fs, ps) ensures ps == Packets(data, false).items {
      HoldsOnce(fs, ps, Packets(data, false).items);
    }
  }

  const FEEDBACK: bytes := [0x80, 205, 0, 0]
  const REPORT: bytes := [0x80, 201, 0, 1, 0, 0, 0, 7]

  lemma SmallFrames()
    ensures IsFrame(FEEDBACK) && FrameBody(FEEDBACK).Failure?
    ensures IsFrame(REPORT) && FrameBody(REPORT) == Success(ReceiverReport(7, [], 0))
  {
    SmallNumbers();
    hide UnBE;
    assert FEEDBACK[2..4] == [0, 0] && REPORT[2..4] == [0, 1];
    assert REPORT[4..8][0..4] == [0, 0, 0, 7];
  }

  /** A feedback packet in front of a receiver report is passed over. */
  lemma FeedbackIsPassedOver()
    ensures Compound(FEEDBACK + REPORT, false) == Success([ReceiverReport(7, [], 0)])
  {
    hide Packets, NextStep, FrameBody, IsFrame;
    SmallFrames();
    assert REPORT + [] == REPORT && (FEEDBACK + REPORT)[4..] == REPORT && REPORT[8..] == [];
    FrameStep(FEEDBACK, REPORT);
    FrameStep(REPORT, []);
    PacketsOf(FEEDBACK + REPORT, 4, None);
    PacketsOf(REPORT, 8, Some(ReceiverReport(7, [], 0)));
    NothingLeft();
    var report := ReceiverReport(7, [], 0);
    assert [report] + [] == [report];
    assert Packets(REPORT, false) == Run([report], None);
    assert [] + [report] == [report];
  }

  lemma SmallNumbers()
    ensures UnBE([0, 0]) == 0 && UnBE([0, 1]) == 1 && UnBE([0, 0, 0, 7]) == 7
  {
    assert [0, 0][..1] == [0] && [0, 1][..1] == [0] && [0][..0] == [];
    var s: bytes := [0, 0, 0, 7];
    assert s[..3] == [0, 0, 0] && s[..3][..2] == [0, 0];
    assert UnBE([0]) == 0;
  }

  lemma NothingLeft()
    ensures Packets([], false) == Run([], None)
  {
  }

  lemma PacketsOf(data: bytes, size: nat, packet: Option<RtcpPacket>)
    requires data != [] && NextStep(data, false) == Take(size, packet)
    ensures size <= |data| && Packets(data, false) == Packets(data[size..], false).After(OptionToSeq(packet))
  {
    hide NextStep;
  }

  // ---------------------------------------------------------------- the errors of strict parsing

  ghost predicate HoldsNothing(s: bytes) {
    forall p :: !WireForm(s, p)
  }

  /** What is wrong with the start of `s`, and the error for it. */
  ghost predicate Refused(s: bytes, e: RtcpError) {
    if |s| < 4 then s != [] && e == BufferTooShort
    else if s[0] / 64 != 2 then e == InvalidVersion
    else if 4 * (U16(s, 2) + 1) > |s| then e == LengthMismatch
    else e == MalformedPacket && HoldsNothing(s[..4 * (U16(s, 2) + 1)])
  }

  lemma RefusedIff(s: bytes, e: RtcpError)
    requires s != []
    ensures NextStep(s, true) == Raise(e) <==> Refused(s, e)
  {
    hide UnBE, WireForm;
    if |s| >= 4 && s[0] / 64 == 2 && 4 * (U16(s, 2) + 1) <= |s| {
      var size := 4 * (U16(s, 2) + 1);
      var frame := s[..size];
      FrameAlone(s);
      if NextStep(s, true).Take? {
        FrameIff(frame, NextStep(s, true).packet.value);
      } else {
        MalformedOnly(s);
        forall p ensures !WireForm(frame, p) { FrameIff(frame, p); }
      }
    }
  }

  lemma MalformedOnly(s: bytes)
    requires |s| >= 4 && s[0] / 64 == 2 && 4 * (U16(s, 2) + 1) <= |s| && !NextStep(s, true).Take?
    ensures NextStep(s, true) == Raise(MalformedPacket)
  {
    hide UnBE, Body;
  }

  /** What strict parsing does with a whole frame does not depend on what follows it. */
  lemma FrameAlone(s: bytes)
    requires |s| >= 4 && 4 * (U16(s, 2) + 1) <= |s|
    ensures NextStep(s[..4 * (U16(s, 2) + 1)], true) == NextStep(s, true)
    ensures NextStep(s, true).Take? ==> NextStep(s, true).size == 4 * (U16(s, 2) + 1)
  {
    hide UnBE, Body, PaddingCount;
    var size := 4 * (U16(s, 2) + 1);
    var frame := s[..size];
    assert frame[2..4] == s[2..4] && frame[4..size] == s[4..size];
  }

  ghost predicate IsRefusal(data: bytes, frames: seq<bytes>, ps: seq<RtcpPacket>, rest: bytes, e: RtcpError) {
    AreWireForms(frames, ps) && Canonical.Join(frames) + rest == data && rest != [] && Refused(rest, e)
  }

  lemma {:induction false} RefusalOf(data: bytes)
    returns (frames: seq<bytes>, ps: seq<RtcpPacket>, rest: bytes)
    requires Packets(data, true).error.Some?
    ensures IsRefusal(data, frames, ps, rest, Packets(data, true).error.value)
    decreases |data|
  {
    hide NextStep, WireForm, Refused;
    var step := NextStep(data, true);
    if step.Raise? {
      frames, ps, rest := [], [], data;
      RefusedIff(data, step.error);
      assert [] + data == data;
    } else {
      StepIsForm(data);
      var f, q, r := RefusalOf(data[step.size..]);
      frames, ps, rest := [data[..step.size]] + f, [step.packet.value] + q, r;
      assert frames[1..] == f;
      assert Canonical.Join(frames) + rest == data[..step.size] + (Canonical.Join(f) + rest);
      assert data == data[..step.size] + data[step.size..];
    }
  }

  lemma StepIsForm(data: bytes)
    requires NextStep(data, true).Take?
    ensures var step := NextStep(data, true); WireForm(data[..step.size], step.packet.value)
  {
    hide WireForm;
    Canonical.StepIsFrame(data);
    var step := NextStep(data, true);
    SingleIff(data[..step.size], step.packet.value);
    FrameIff(data[..step.size], step.packet.value);
  }

  lemma RefusalRaises(data: bytes, frames: seq<bytes>, ps: seq<RtcpPacket>, rest: bytes, e: RtcpError)
    requires IsRefusal(data, frames, ps, rest, e)
    ensures Packets(data, true).error == Some(e)
  {
    hide NextStep, Refused, AreWireForms;
    WireFormsIff(frames, ps);
    Canonical.PacketsJoined(frames, ps);
    Canonical.PacketsConcat(Canonical.Join(frames), rest, true);
    RefusedIff(rest, e);
  }

  /**
   * Which error strict parsing raises: fewer than four bytes are too short; else the error says what is
   * wrong with the first bytes that are no wire form, behind some wire forms.
   */
  lemma StrictErrors(data: bytes, e: RtcpError)
    ensures Compound(data, true) == Failure(e) <==>
      if |data| < 4 then e == BufferTooShort
      else exists frames, ps, rest :: IsRefusal(data, frames, ps, rest, e)
  {
    hide Packets, IsRefusal;
    if Packets(data, true).error.Some? {
      var frames, ps, rest := RefusalOf(data);
      assert IsRefusal(data, frames, ps, rest, Packets(data, true).error.value);
    }
    forall frames, ps, rest | IsRefusal(data, frames, ps, rest, e) ensures Packets(data, true).error == Some(e) {
      RefusalRaises(data, frames, ps, rest, e);
    }
  }
}
