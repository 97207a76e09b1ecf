/** The per-SSRC stream tracker (src/rtpkit/stream/tracker.py), refined against the history of its arrivals. */
module StreamTracker {
  import opened Bytes
  import opened Wrappers
  import opened ExtSeqs
  import opened RtpModel
  import opened StreamHistory

  class StreamState {
    var payloadType: int
    var packetCount: int
    var duplicateCount: int
    var outOfOrderCount: int
    var firstExtSeq: Option<ExtSeq>
    var highestExtSeq: Option<ExtSeq>
    var jitter: real
    var prevTransit: Option<real>
    var seenExtSeqs: set<ExtSeq>
    var packets: map<ExtSeq, RtpPacket>
    ghost var history: History

    /** Every field is a function of the arrivals so far. */
    ghost predicate Valid()
      reads this
    {
      var e := Exts(history);
      && packetCount == |history|
      && duplicateCount == Duplicates(e)
      && outOfOrderCount == OutOfOrder(e)
      && firstExtSeq == (if e == [] then None else Some(e[0]))
      && highestExtSeq == (if e == [] then None else Some(Max(e)))
      && jitter == Jitter(history)
      && prevTransit == (if history == [] then None else Some(Transit(Last(history))))
      && seenExtSeqs == Seen(e)
      && (history != [] ==> payloadType == Last(history).packet.payloadType)
      && packets == FirstPackets(history)
    }

    constructor (payloadType: int)
      ensures Valid() && history == []
    {
      this.payloadType := payloadType;
      packetCount, duplicateCount, outOfOrderCount := 0, 0, 0;
      firstExtSeq, highestExtSeq, prevTransit := None, None, None;
      jitter := 0.0;
      seenExtSeqs, packets := {}, map[];
      history := [];
    }

    method Observe(packet: RtpPacket, arrivalTime: real, clockRate: int)
      requires Valid()
      modifies this
      ensures Valid()
      ensures history == old(history) + [Observation(packet, arrivalTime, clockRate)]
    {
      hide Exts, Duplicates, OutOfOrder, Max, Jitter, FirstPackets, Unwrap, TransitTime, Abs, Seen, Extend;
      ghost var o, e := Observation(packet, arrivalTime, clockRate), Exts(history);
      ExtsAppend(history, o);
      JitterAppend(history, o);
      FirstPacketsAppend(history, o);

      packetCount := packetCount + 1;
      payloadType := packet.payloadType;
      var extSeq := Extend(packet.sequenceNumber);
      SeenAppend(e, extSeq);
      CountsAppend(e, extSeq);
      SeenMembers(e, extSeq);
      StoredIffArrived(history, extSeq);
      if firstExtSeq.None? {
        firstExtSeq := Some(extSeq);
      }
      Record(extSeq, packet);
      if highestExtSeq.None? || extSeq > highestExtSeq.value {
        highestExtSeq := Some(extSeq);
      }
      UpdateJitter(packet.timestamp, arrivalTime, clockRate);
      history := history + [o];
    }

    /** Count a repeated number, or store the packet of a new one. */
    method Record(extSeq: ExtSeq, packet: RtpPacket)
      modifies this`duplicateCount, this`seenExtSeqs, this`packets, this`outOfOrderCount
      ensures duplicateCount == old(duplicateCount) + if extSeq in old(seenExtSeqs) then 1 else 0
      ensures seenExtSeqs == old(seenExtSeqs) + {extSeq}
      ensures packets == if extSeq in old(seenExtSeqs) then old(packets) else old(packets)[extSeq := packet]
      ensures outOfOrderCount == old(outOfOrderCount)
        + if extSeq !in old(seenExtSeqs) && highestExtSeq.Some? && extSeq < highestExtSeq.value then 1 else 0
    {
      if extSeq in seenExtSeqs {
        duplicateCount := duplicateCount + 1;
      } else {
        seenExtSeqs := seenExtSeqs + {extSeq};
        packets := packets[extSeq := packet];
        if highestExtSeq.Some? && extSeq < highestExtSeq.value {
          outOfOrderCount := outOfOrderCount + 1;
        }
      }
    }

    function Extend(number: u16): (r: ExtSeq)
      requires highestExtSeq.Some? ==> highestExtSeq.value >= 0
      reads this
      ensures r == if highestExtSeq.None? then number as ExtSeq else Unwrap(highestExtSeq.value, number)
    {
      if highestExtSeq.None? then number else
        var prevSeq := highestExtSeq.value % 0x1_0000;
        var prevCycle := highestExtSeq.value - prevSeq;
        var delta: int := number - prevSeq;
        prevCycle + prevSeq
        + if delta > SEQ_MOD_HALF then delta - SEQ_MOD else if delta < -SEQ_MOD_HALF then delta + SEQ_MOD else delta
    }

    method UpdateJitter(timestamp: u32, arrivalTime: real, clockRate: int)
      modifies this`jitter, this`prevTransit
      ensures var transit := TransitTime(arrivalTime, clockRate, timestamp);
              prevTransit == Some(transit)
              && jitter == if old(prevTransit).None? then old(jitter) else
                             old(jitter) + (Abs(transit - old(prevTransit).value) - old(jitter)) / 16.0
    {
      var transit := arrivalTime * clockRate as real - timestamp as real;
      if prevTransit.Some? {
        jitter := jitter + (Abs(transit - prevTransit.value) - jitter) / 16.0;
      }
      prevTransit := Some(transit);
    }

    method Snapshot(ssrc: int) returns (stats: Stats)
      requires Valid() && history != []
      ensures stats == StatsOf(history, ssrc)
    {
      var expected := highestExtSeq.value - firstExtSeq.value + 1;
      var received := packetCount - duplicateCount;
      ghost var e := Exts(history);
      SeenSize(e);
      LossAccounting(e);
      stats := Stats(ssrc, payloadType, packetCount, expected,
                     if expected - received > 0 then expected - received else 0,
                     outOfOrderCount, duplicateCount, firstExtSeq.value, highestExtSeq.value, jitter);
    }

    function OrderedPackets(): (ps: seq<RtpPacket>)
      requires Valid()
      reads this
      ensures ps == Ordered(history)
    {
      ListedIsOrdered(history);
      Listed(packets)
    }
  }

  /** `tuple(packets[x] for x in sorted(packets))`. */
  function Listed(packets: map<ExtSeq, RtpPacket>): (ps: seq<RtpPacket>)
    ensures |ps| == |packets|
  {
    var order := Sorted(packets.Keys);
    ListsAll(order, packets.Keys);
    seq(|order|, i requires 0 <= i < |order| => packets[order[i]])
  }

  lemma ListedIsOrdered(h: History)
    ensures Listed(FirstPackets(h)) == Ordered(h)
  {
    hide Sorted, FirstArrival, Exts, FirstPackets;
    FirstPacketsAreFirstArrivals(h);
    assert FirstPackets(h).Keys == Seen(Exts(h));
    ListsAll(Sorted(Seen(Exts(h))), Seen(Exts(h)));
  }

  lemma SeenMembers(e: seq<ExtSeq>, x: ExtSeq)
    ensures x in Seen(e) <==> x in e
  {
  }

  /** The number given to the arrival that follows `h`. */
  ghost function NextExt(h: History, number: u16): ExtSeq {
    if Exts(h) == [] then number else Unwrap(Max(Exts(h)), number)
  }

  lemma ExtsAppend(h: History, o: Observation)
    ensures Exts(h + [o]) == Exts(h) + [NextExt(h, o.packet.sequenceNumber)]
  {
    assert Init(h + [o]) == h;
  }

  lemma CountsAppend(e: seq<ExtSeq>, x: ExtSeq)
    ensures Duplicates(e + [x]) == Duplicates(e) + if x in e then 1 else 0
    ensures OutOfOrder(e + [x]) == OutOfOrder(e) + if x !in e && e != [] && x < Max(e) then 1 else 0
    ensures Max(e + [x]) == if e == [] || x > Max(e) then x else Max(e)
  {
    assert Init(e + [x]) == e;
  }

  lemma JitterAppend(h: History, o: Observation)
    ensures Jitter(h + [o]) == if h == [] then 0.0 else
              Jitter(h) + (Abs(Transit(o) - Transit(Last(h))) - Jitter(h)) / 16.0
    ensures h == [] ==> Jitter(h) == 0.0
  {
    assert Init(h + [o]) == h;
  }

  /** Each number's first packet, as the tracker stores them. */
  ghost function FirstPackets(h: History): map<ExtSeq, RtpPacket> {
    if h == [] then map[] else
      var before, x := FirstPackets(Init(h)), Last(Exts(h));
      if x in before then before else before[x := Last(h).packet]
  }

  lemma FirstPacketsAppend(h: History, o: Observation)
    ensures var x := NextExt(h, o.packet.sequenceNumber);
            FirstPackets(h + [o])
            == if x in FirstPackets(h) then FirstPackets(h) else FirstPackets(h)[x := o.packet]
  {
    hide Max, Unwrap;
    ExtsAppend(h, o);
    assert Init(h + [o]) == h;
  }

  lemma {:induction false} FirstPacketsAreFirstArrivals(h: History)
    ensures forall x: ExtSeq :: x in FirstPackets(h) <==> x in Exts(h)
    ensures forall x: ExtSeq | x in Exts(h) :: FirstPackets(h)[x] == FirstArrival(h, x)
  {
    if h != [] {
      hide Max, Unwrap, Exts;
      FirstPacketsAreFirstArrivals(Init(h));
      assert h == Init(h) + [Last(h)];
      ExtsAppend(Init(h), Last(h));
      var e := Exts(h);
      assert Init(e) == Exts(Init(h));
      forall x: ExtSeq | x in e ensures FirstPackets(h)[x] == FirstArrival(h, x) {
        if x in Init(e) { assert FirstAt(e, x) == FirstAt(Init(e), x); }
      }
    }
  }

  lemma StoredIffArrived(h: History, x: ExtSeq)
    ensures x in FirstPackets(h) <==> x in Exts(h)
  {
    FirstPacketsAreFirstArrivals(h);
  }

  lemma ListsAll(r: seq<ExtSeq>, s: set<ExtSeq>)
    requires Lists(r, s)
    ensures forall i :: 0 <= i < |r| ==> r[i] in s
  {
    forall i | 0 <= i < |r| ensures r[i] in s {
      assert r[i] in r;
    }
  }

  class RtpStreamTracker {
    var states: map<u32, StreamState>
    var order: seq<u32>  // the insertion order of `states`
    ghost var history: History

    /** Every stream's state has seen exactly that stream's arrivals. */
    ghost predicate Valid()
      reads this, states.Values
    {
      && order == Ssrcs(history)
      && (forall s: u32 :: s in states <==> s in order)
      && (forall s, t | s in states && t in states && s != t :: states[s] != states[t])
      && (forall s | s in states :: states[s].Valid() && states[s].history == Only(history, s))
    }

    constructor ()
      ensures Valid() && history == [] && states == map[]
    {
      states, order, history := map[], [], [];
    }

    method Observe(packet: RtpPacket, arrivalTime: real, clockRate: int)
      requires Valid()
      modifies this, states.Values
      ensures Valid() && fresh(states.Values - old(states.Values))
      ensures history == old(history) + [Observation(packet, arrivalTime, clockRate)]
    {
      hide StreamState.Valid, Only, Ssrcs;
      ghost var o := Observation(packet, arrivalTime, clockRate);
      OnlyAppend(history, o);
      if packet.ssrc !in states {
        var state := new StreamState(packet.payloadType);
        states := states[packet.ssrc := state];
        order := order + [packet.ssrc];
      }
      states[packet.ssrc].Observe(packet, arrivalTime, clockRate);
      history := history + [o];
    }

    function SsrcsSeen(): (s: seq<u32>)
      requires Valid()
      reads this, states.Values
      ensures s == Ssrcs(history)
    {
      order
    }

    method Stats(ssrc: u32) returns (r: Option<Stats>)
      requires Valid()
      ensures r == if Only(history, ssrc) == [] then None else Some(StatsOf(Only(history, ssrc), ssrc))
    {
      if ssrc in states {
        var stats := states[ssrc].Snapshot(ssrc);
        return Some(stats);
      }
      return None;
    }

    method AllStats() returns (r: map<u32, Stats>)
      requires Valid()
      ensures forall s: u32 :: s in r <==> Only(history, s) != []
      ensures forall s | s in r :: r[s] == StatsOf(Only(history, s), s)
    {
      hide StreamState.Valid, Only, Ssrcs, StatsOf;
      r := map[];
      for i := 0 to |order|
        invariant forall s :: s in r <==> s in order[..i]
        invariant forall s | s in r :: Only(history, s) != [] && r[s] == StatsOf(Only(history, s), s)
      {
        var stats := states[order[i]].Snapshot(order[i]);
        r := r[order[i] := stats];
      }
    }

    function OrderedPackets(ssrc: u32): (ps: seq<RtpPacket>)
      requires Valid()
      reads this, states.Values
      ensures ps == Ordered(Only(history, ssrc))
    {
      if ssrc in states then states[ssrc].OrderedPackets() else []
    }
  }

  lemma OnlyAppend(h: History, o: Observation)
    ensures forall s :: Only(h + [o], s) == Only(h, s) + if o.packet.ssrc == s then [o] else []
    ensures Ssrcs(h + [o]) == Ssrcs(h) + if o.packet.ssrc in Ssrcs(h) then [] else [o.packet.ssrc]
  {
    assert Init(h + [o]) == h;
    assert Ssrcs(h) + [] == Ssrcs(h);
  }
}
