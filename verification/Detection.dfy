/** Single-packet and whole-flow RTP detection (src/rtpkit/detection/heuristics.py, src/rtpkit/detection/flow.py). */
module Detection {
  import opened Bytes
  import opened Wrappers
  import opened RtpModel
  import RtpParser
  import RtcpParser
  import RtcpReference
  import RtcpOutcomes

  /** The payload types that collide with RTCP's packet types 200-204. */
  predicate InCollisionRange(payloadType: int) {
    72 <= payloadType < 77
  }

  predicate LooksLikeRtp(data: bytes) {
    var r := RtpParser.Rtp(data, true);
    r.Success? && !InCollisionRange(r.value.payloadType)
  }

  predicate LooksLikeRtcp(data: bytes) {
    var r := RtcpParser.Compound(data, true);
    r.Success? && r.value != [] && (r.value[0].SenderReport? || r.value[0].ReceiverReport?)
  }

  /** The RTP test over the bytes: a strictly accepted packet whose payload type is none of 72 to 76. */
  lemma RtpTest(data: bytes)
    ensures LooksLikeRtp(data) <==>
      RtpParser.Rtp(data, true).Success? && |data| >= 12 && !(72 <= data[1] % 128 <= 76)
  {
    if RtpParser.Rtp(data, true).Success? { RtpTypeOf(data); }
    hide U16, U32;
  }

  /** The RTCP test over the bytes: a strictly accepted compound whose first type is 200 or 201. */
  lemma RtcpTest(data: bytes)
    ensures LooksLikeRtcp(data) <==>
      RtcpParser.Compound(data, true).Success? && |data| >= 4 && (data[1] == 200 || data[1] == 201)
  {
    if RtcpParser.Compound(data, true).Success? { FirstPacketType(data); }
  }

  lemma FirstPacketType(data: bytes)
    requires RtcpParser.Compound(data, true).Success?
    ensures var ps := RtcpParser.Compound(data, true).value;
            && |data| >= 4 && ps != []
            && (data[1] == 200 <==> ps[0].SenderReport?) && (data[1] == 201 <==> ps[0].ReceiverReport?)
  {
    hide RtcpParser.NextStep;
    var step := RtcpParser.NextStep(data, true);
    RtcpOutcomes.StepIsForm(data);
    RtcpOutcomes.TypeNumbers(step.packet.value);
    assert data[..step.size][1] == data[1];
    hide RtcpReference.WireForm, RtcpReference.TypeOf;
  }

  /** No buffer is taken for both. */
  lemma ClassificationIsDisjoint(data: bytes)
    ensures !(LooksLikeRtp(data) && LooksLikeRtcp(data))
  {
    hide LooksLikeRtcp, RtpParser.Rtp;
    if LooksLikeRtcp(data) && RtpParser.Rtp(data, true).Success? {
      FirstReportFixesType(data);
      RtpTypeOf(data);
    }
  }

  lemma FirstReportFixesType(data: bytes)
    requires LooksLikeRtcp(data)
    ensures |data| >= 4 && (data[1] == 200 || data[1] == 201)
  {
    hide RtcpParser.SenderReportBody, RtcpParser.ReceiverReportBody, RtcpParser.Chunks, UnBE;
    var step := RtcpParser.NextStep(data, true);
    assert step.Take? && RtcpParser.Compound(data, true).value[0] == step.packet.value;
  }

  lemma RtpTypeOf(data: bytes)
    requires |data| >= 2 && RtpParser.Rtp(data, true).Success?
    ensures RtpParser.Rtp(data, true).value.payloadType == data[1] % 128
  {
  }

  // ---------------------------------------------------------------- the flow

  /** The packets of a flow that count as evidence. */
  function Accepted(history: seq<bytes>): seq<RtpPacket> {
    if history == [] then [] else
      var last := history[|history| - 1];
      Accepted(history[..|history| - 1])
      + if LooksLikeRtp(last) then [RtpParser.Rtp(last, true).value] else []
  }

  /** How far apart two sequence numbers are around the circle. */
  function CircularDistance(a: u16, b: u16): (d: nat)
    ensures d <= 0x8000
  {
    var up, down := (b - a) % 0x1_0000, (a - b) % 0x1_0000;
    if up <= down then up else down
  }

  function WrappedDelta(a: u16, b: u16): (delta: int)
    ensures (b - a - delta) % 0x1_0000 == 0 && -0x8000 < delta <= 0x8000
    ensures (if delta < 0 then -delta else delta) == CircularDistance(a, b)
  {
    var delta := (b - a) % 0x1_0000;
    if delta > 0x8000 then delta - 0x1_0000 else delta
  }

  /** A number is within the threshold of another when it is that many steps or fewer ahead or behind. */
  lemma StepsAround(a: u16, b: u16, threshold: int)
    ensures CircularDistance(a, b) <= threshold
            <==> exists d :: -threshold <= d <= threshold && IsStep(a, b, d)
  {
    var delta := WrappedDelta(a, b);
    assert IsStep(a, b, delta);
    forall d | IsStep(a, b, d) ensures CircularDistance(a, b) <= if d < 0 then -d else d {
      ShortestStep(a, b, d);
    }
  }

  predicate IsStep(a: u16, b: u16, d: int) {
    (b - a - d) % 0x1_0000 == 0
  }

  lemma ShortestStep(a: u16, b: u16, d: int)
    requires IsStep(a, b, d)
    ensures CircularDistance(a, b) <= if d < 0 then -d else d
  {
  }

  predicate OneSsrc(ps: seq<RtpPacket>) {
    forall i :: 0 <= i < |ps| ==> ps[i].ssrc == ps[0].ssrc
  }

  predicate SmallSteps(ps: seq<RtpPacket>, threshold: int) {
    forall i :: 0 < i < |ps| ==> CircularDistance(ps[i - 1].sequenceNumber, ps[i].sequenceNumber) <= threshold
  }

  predicate Progressing(ps: seq<RtpPacket>) {
    exists i, j :: 0 <= i < |ps| && 0 <= j < |ps| && ps[i].sequenceNumber != ps[j].sequenceNumber
  }

  function Numbers(ps: seq<RtpPacket>): set<u16> {
    set i | 0 <= i < |ps| :: ps[i].sequenceNumber
  }

  datatype FlowClassification = FlowClassification(
    packetsObserved: int, packetsParsed: int, ssrcConsistent: bool, sequencePlausible: bool,
    sequenceProgressing: bool, isLikelyRtp: bool)

  class RtpFlowClassifier {
    const minPackets: int
    const seqJumpThreshold: int
    var packetsObserved: int
    var packetsParsed: int
    var ssrc: Option<u32>
    var ssrcConsistent: bool
    var lastSeq: Option<u16>
    var sequencePlausible: bool
    var distinctSeqs: set<u16>
    ghost var history: seq<bytes>

    /** The running evidence is a function of the whole history. */
    ghost predicate Valid()
      reads this
    {
      var ps := Accepted(history);
      && packetsObserved == |history|
      && packetsParsed == |ps|
      && ssrc == (if ps == [] then None else Some(ps[0].ssrc))
      && ssrcConsistent == OneSsrc(ps)
      && lastSeq == (if ps == [] then None else Some(ps[|ps| - 1].sequenceNumber))
      && sequencePlausible == SmallSteps(ps, seqJumpThreshold)
      && distinctSeqs == Numbers(ps)
    }

    constructor (minPackets: int, seqJumpThreshold: int)
      ensures Valid() && history == []
      ensures this.minPackets == minPackets && this.seqJumpThreshold == seqJumpThreshold
    {
      this.minPackets, this.seqJumpThreshold := minPackets, seqJumpThreshold;
      packetsObserved, packetsParsed := 0, 0;
      ssrc, lastSeq := None, None;
      ssrcConsistent, sequencePlausible := true, true;
      distinctSeqs := {};
      history := [];
    }

    method Observe(data: bytes)
      requires Valid()
      modifies this
      ensures Valid() && history == old(history) + [data]
    {
      hide Accepted, OneSsrc, SmallSteps, Numbers, RtpParser.Rtp, CircularDistance;
      ghost var ps := Accepted(history);
      AcceptedAppend(history, data);
      history := history + [data];
      packetsObserved := packetsObserved + 1;
      var parsed := RtpParser.Parse(data, true);
      if parsed.Failure? {
        return;
      }
      var packet := parsed.value;
      if InCollisionRange(packet.payloadType) {
        return;
      }
      packetsParsed := packetsParsed + 1;
      EvidenceAppend(ps, packet, seqJumpThreshold);
      if ssrc.None? {
        ssrc := Some(packet.ssrc);
      } else if packet.ssrc != ssrc.value {
        ssrcConsistent := false;
      }
      if lastSeq.Some? {
        var delta := WrappedDelta(lastSeq.value, packet.sequenceNumber);
        if (if delta < 0 then -delta else delta) > seqJumpThreshold {
          sequencePlausible := false;
        }
      }
      lastSeq := Some(packet.sequenceNumber);
      distinctSeqs := distinctSeqs + {packet.sequenceNumber};
    }

    /** The verdict is a statement about the whole flow. */
    method Classify() returns (c: FlowClassification)
      requires Valid()
      ensures var ps := Accepted(history);
              c == FlowClassification(
                |history|, |ps|, OneSsrc(ps), SmallSteps(ps, seqJumpThreshold), Progressing(ps),
                |ps| >= minPackets && OneSsrc(ps) && SmallSteps(ps, seqJumpThreshold) && Progressing(ps))
    {
      ProgressIsDistinct(Accepted(history));
      var sequenceProgressing := |distinctSeqs| > 1;
      var isLikelyRtp :=
        packetsParsed >= minPackets && ssrcConsistent && sequencePlausible && sequenceProgressing;
      c := FlowClassification(packetsObserved, packetsParsed, ssrcConsistent, sequencePlausible,
                              sequenceProgressing, isLikelyRtp);
    }
  }

  lemma AcceptedAppend(history: seq<bytes>, data: bytes)
    ensures Accepted(history + [data])
            == if LooksLikeRtp(data) then Accepted(history) + [RtpParser.Rtp(data, true).value] else Accepted(history)
  {
    hide LooksLikeRtp, RtpParser.Rtp;
    assert (history + [data])[..|history|] == history;
    assert Accepted(history) + [] == Accepted(history);
  }

  lemma EvidenceAppend(ps: seq<RtpPacket>, p: RtpPacket, threshold: int)
    ensures OneSsrc(ps + [p]) <==> OneSsrc(ps) && (ps != [] ==> p.ssrc == ps[0].ssrc)
    ensures SmallSteps(ps + [p], threshold) <==>
      SmallSteps(ps, threshold)
      && (ps != [] ==> CircularDistance(ps[|ps| - 1].sequenceNumber, p.sequenceNumber) <= threshold)
    ensures Numbers(ps + [p]) == Numbers(ps) + {p.sequenceNumber}
    ensures ps == [] ==> OneSsrc(ps) && SmallSteps(ps, threshold)
  {
    hide CircularDistance;
    var qs := ps + [p];
    assert forall i :: 0 <= i < |ps| ==> qs[i] == ps[i];
    assert qs[|ps|] == p;
  }

  /** More than one distinct number was recorded exactly when two packets differ in theirs. */
  lemma ProgressIsDistinct(ps: seq<RtpPacket>)
    ensures |Numbers(ps)| > 1 <==> Progressing(ps)
  {
    var numbers := Numbers(ps);
    if Progressing(ps) {
      var i, j :| 0 <= i < |ps| && 0 <= j < |ps| && ps[i].sequenceNumber != ps[j].sequenceNumber;
      var a, b := ps[i].sequenceNumber, ps[j].sequenceNumber;
      var others := numbers - {a};
      assert a in numbers && b in others;
      assert |others| == |numbers| - 1 && others != {};
    } else if ps != [] {
      assert numbers == {ps[0].sequenceNumber};
    } else {
      assert numbers == {};
    }
  }
}
