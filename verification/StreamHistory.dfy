/**
 * What a stream's statistics mean: each is a function of the whole history of arrivals
 * (section 6.4.1 and appendices A.1, A.3 and A.8 of RFC 3550).
 */
module StreamHistory {
  import opened Bytes
  import opened ExtSeqs
  import opened RtpModel

  const SEQ_MOD := 0x1_0000
  const SEQ_MOD_HALF := 0x8000

  datatype Observation = Observation(packet: RtpPacket, arrivalTime: real, clockRate: int)

  type History = seq<Observation>

  function Init<T>(s: seq<T>): seq<T>
    requires s != []
  {
    s[..|s| - 1]
  }

  function Last<T>(s: seq<T>): T
    requires s != []
  {
    s[|s| - 1]
  }

  // ---------------------------------------------------------------- unwrapping

  /** `number` unwrapped against the high-water mark `high`. */
  function Unwrap(high: nat, number: u16): (r: ExtSeq)
    ensures (r - number) % 0x1_0000 == 0
    ensures -0x8000 <= r - high <= 0x8000
  {
    var delta: int := number - high % 0x1_0000;
    high + if delta > 0x8000 then delta - 0x1_0000 else if delta < -0x8000 then delta + 0x1_0000 else delta
  }

  /** The extended number given to each arrival. */
  function Exts(h: History): (e: seq<ExtSeq>)
    ensures |e| == |h|
    ensures e != [] ==> e[0] == h[0].packet.sequenceNumber
  {
    if h == [] then [] else
      var before := Exts(Init(h));
      var number := Last(h).packet.sequenceNumber;
      before + [if before == [] then number else Unwrap(Max(before), number)]
  }

  // ---------------------------------------------------------------- counting arrivals

  function Seen(e: seq<ExtSeq>): set<ExtSeq> {
    set x: ExtSeq | x in e
  }

  /** Arrivals whose number had already arrived. */
  function Duplicates(e: seq<ExtSeq>): nat {
    if e == [] then 0 else Duplicates(Init(e)) + if Last(e) in Init(e) then 1 else 0
  }

  /** First arrivals below the highest number that had arrived. */
  function OutOfOrder(e: seq<ExtSeq>): nat {
    if e == [] then 0 else
      OutOfOrder(Init(e))
      + if Last(e) !in Init(e) && Init(e) != [] && Last(e) < Max(Init(e)) then 1 else 0
  }

  /** Arrivals below the highest number that had arrived, repeats included: the documented count. */
  function Below(e: seq<int>): nat {
    if e == [] then 0 else
      Below(Init(e)) + if Init(e) != [] && Last(e) < Max(Init(e)) then 1 else 0
  }

  /** Arrivals above every number that had arrived. */
  function Advances(e: seq<ExtSeq>): nat {
    if e == [] then 0 else
      Advances(Init(e)) + if Init(e) == [] || Last(e) > Max(Init(e)) then 1 else 0
  }

  /** The numbers between the first arrival's and the highest that never arrived. */
  function Missing(e: seq<ExtSeq>): set<ExtSeq>
    requires e != []
  {
    Range(e[0], Max(e)) - Seen(e)
  }

  /** The numbers that arrived although they come before the first arrival's. */
  function Early(e: seq<ExtSeq>): set<ExtSeq>
  {
    set x: ExtSeq | x in Seen(e) && x < e[0]
  }

  // ---------------------------------------------------------------- reordering

  /** The position at which `x` first arrived. */
  function FirstAt(e: seq<int>, x: int): (i: nat)
    requires x in e
    ensures i < |e| && e[i] == x && forall k :: 0 <= k < i ==> e[k] != x
  {
    if x in Init(e) then FirstAt(Init(e), x) else |e| - 1
  }

  function FirstArrival(h: History, x: ExtSeq): RtpPacket
    requires x in Exts(h)
  {
    h[FirstAt(Exts(h), x)].packet
  }

  /** Each number's first packet, in the order of the numbers. */
  function Ordered(h: History): (ps: seq<RtpPacket>)
    ensures |ps| == |Seen(Exts(h))|
  {
    var order := Sorted(Seen(Exts(h)));
    seq(|order|, i requires 0 <= i < |order| => assert order[i] in order; FirstArrival(h, order[i]))
  }

  // ---------------------------------------------------------------- jitter

  /** The relative transit time of a packet, in timestamp units. */
  function TransitTime(arrivalTime: real, clockRate: int, timestamp: int): real {
    arrivalTime * clockRate as real - timestamp as real
  }

  function Transit(o: Observation): real {
    TransitTime(o.arrivalTime, o.clockRate, o.packet.timestamp)
  }

  function Abs(x: real): real {
    if x < 0.0 then -x else x
  }

  /** The interarrival jitter after the whole history. */
  function Jitter(h: History): real {
    if |h| < 2 then 0.0 else
      var before := Jitter(Init(h));
      before + (Abs(Transit(Last(h)) - Transit(Last(Init(h)))) - before) / 16.0
  }

  // ---------------------------------------------------------------- statistics

  datatype Stats = Stats(
    ssrc: int, payloadType: int, packetCount: int, expectedCount: int, lostCount: int,
    outOfOrderCount: int, duplicateCount: int, firstExtended: int, highestExtended: int, jitter: real)

  function AtLeastZero(n: int): nat {
    if n > 0 then n else 0
  }

  /** The statistics of a history: the loss is what is missing, less what came early. */
  function StatsOf(h: History, ssrc: int): Stats
    requires h != []
  {
    var e := Exts(h);
    var lost := AtLeastZero(|Missing(e)| - |Early(e)|);
    Stats(ssrc, Last(h).packet.payloadType, |h|, |Range(e[0], Max(e))|, lost,
          OutOfOrder(e), Duplicates(e), e[0], Max(e), Jitter(h))
  }

  /** The arrivals of one stream, in order. */
  function Only(h: History, ssrc: int): History {
    if h == [] then [] else Only(Init(h), ssrc) + if Last(h).packet.ssrc == ssrc then [Last(h)] else []
  }

  /** The streams of a history, in the order they first appeared. */
  function Ssrcs(h: History): (s: seq<int>)
    ensures forall x :: x in s <==> Only(h, x) != []
  {
    if h == [] then [] else
      var before := Ssrcs(Init(h));
      if Last(h).packet.ssrc in before then before else before + [Last(h).packet.ssrc]
  }

  // ---------------------------------------------------------------- laws of every history

  lemma {:induction false} SeenSize(e: seq<ExtSeq>)
    ensures |e| == Duplicates(e) + |Seen(e)|
  {
    if e != [] {
      SeenSize(Init(e));
      SeenAppend(Init(e), Last(e));
      assert e == Init(e) + [Last(e)];
    }
  }

  lemma SeenAppend(e: seq<ExtSeq>, x: ExtSeq)
    ensures Seen(e + [x]) == Seen(e) + {x}
  {
  }

  /** Every arrival is a duplicate, out of order, or a new highest. */
  lemma {:induction false} ArrivalsPartition(e: seq<ExtSeq>)
    ensures |e| == Duplicates(e) + OutOfOrder(e) + Advances(e)
  {
    if e != [] {
      ArrivalsPartition(Init(e));
    }
  }

  /** No number below the highest arrives again. */
  predicate RepeatsOnlyHighest(e: seq<int>) {
    forall i :: 0 < i < |e| && e[i] in e[..i] ==> e[i] == Max(e[..i])
  }

  lemma RepeatsOnlyHighestInit(e: seq<int>)
    requires |e| > 1
    ensures RepeatsOnlyHighest(e)
            <==> RepeatsOnlyHighest(Init(e)) && (Last(e) in Init(e) ==> Last(e) == Max(Init(e)))
  {
    forall i | 0 < i < |e| - 1 ensures Init(e)[..i] == e[..i] && Init(e)[i] == e[i] {
    }
  }

  /**
   * Out-of-order arrivals are counted as documented, all those below the highest number, exactly in the
   * runs that repeat no number below the highest; in all others the count is too low.
   */
  lemma {:induction false} OutOfOrderAsDocumented(e: seq<ExtSeq>)
    ensures OutOfOrder(e) <= Below(e)
    ensures OutOfOrder(e) == Below(e) <==> RepeatsOnlyHighest(e)
  {
    if |e| > 1 {
      OutOfOrderAsDocumented(Init(e));
      hide RepeatsOnlyHighest;
      RepeatsOnlyHighestInit(e);
    }
  }

  /** A repeat below the highest number is documented as out of order, and not counted. */
  lemma RepeatIsNotOutOfOrder(h: History, ssrc: int)
    requires |h| == 3 && h[0].packet.sequenceNumber == h[2].packet.sequenceNumber == 10
    requires h[1].packet.sequenceNumber == 11
    ensures Exts(h) == [10, 11, 10] && StatsOf(h, ssrc).outOfOrderCount == 0 && Below(Exts(h)) == 1
  {
    assert Exts(h[..2][..1]) == [10];
    assert Exts(h[..2]) == [10, 11];
    var e: seq<ExtSeq> := [10, 11, 10];
    assert Exts(h) == e;
    assert Init(e) == [10, 11] && Init(Init(e)) == [10] && Init(Init(Init(e))) == [];
  }

  /** Expected less received is missing less early; so some packet is always accounted for. */
  lemma LossAccounting(e: seq<ExtSeq>)
    requires e != []
    ensures |Range(e[0], Max(e))| - |Seen(e)| == |Missing(e)| - |Early(e)|
    ensures |Missing(e)| < |Range(e[0], Max(e))| == Max(e) - e[0] + 1
  {
    var range := Range(e[0], Max(e));
    var within := range * Seen(e);
    assert range == Missing(e) + within;
    assert Seen(e) == Early(e) + within by {
      forall x: ExtSeq | x in Seen(e) ensures x in Early(e) || x in within {
        var i :| 0 <= i < |e| && e[i] == x;
      }
    }
    assert e[0] in within;
  }

  /** The loss is what was expected less what was received once, but never below zero; and something always was. */
  lemma LossIsBelowExpected(h: History, ssrc: int)
    requires h != []
    ensures var stats := StatsOf(h, ssrc);
            0 <= stats.lostCount < stats.expectedCount
            && stats.expectedCount == stats.highestExtended - stats.firstExtended + 1
            && stats.lostCount == AtLeastZero(stats.expectedCount - (stats.packetCount - stats.duplicateCount))
  {
    hide Jitter, OutOfOrder, Range, Early, Missing;
    LossAccounting(Exts(h));
    SeenSize(Exts(h));
  }

  /** The jitter lies between zero and the largest change of transit time. */
  lemma {:induction false} JitterBounded(h: History, bound: real)
    requires bound >= 0.0
    requires forall i :: 0 < i < |h| ==> Abs(Transit(h[i]) - Transit(h[i - 1])) <= bound
    ensures 0.0 <= Jitter(h) <= bound
  {
    if |h| >= 2 {
      JitterBounded(Init(h), bound);
      assert Abs(Transit(h[|h| - 1]) - Transit(h[|h| - 2])) <= bound;
    }
  }

  /** `x * (15/16)^n`. */
  function Decayed(x: real, n: nat): real {
    if n == 0 then x else Decayed(x, n - 1) * 15.0 / 16.0
  }

  /** The gain of the estimator: of a steady change of transit time, each arrival closes a sixteenth of the gap. */
  lemma {:induction false} JitterGain(h: History, change: real)
    requires h != []
    requires forall i :: 0 < i < |h| ==> Abs(Transit(h[i]) - Transit(h[i - 1])) == change
    ensures change - Jitter(h) == Decayed(change, |h| - 1)
  {
    hide Transit, Abs;
    if |h| > 1 {
      JitterGain(Init(h), change);
      assert Abs(Transit(Last(h)) - Transit(Last(Init(h)))) == change;
    }
  }

  /** Only changes of transit time matter: a constant delay leaves the jitter unchanged. */
  lemma {:induction false} JitterIgnoresDelay(h: History, g: History, delay: real)
    requires |h| == |g|
    requires forall i :: 0 <= i < |h| ==> Transit(g[i]) == Transit(h[i]) + delay
    ensures Jitter(g) == Jitter(h)
  {
    if |h| >= 2 {
      JitterIgnoresDelay(Init(h), Init(g), delay);
    }
  }

  // ---------------------------------------------------------------- jitter by arrivals and timestamps

  /**
   * D(i-1, i) of section 6.4.1 of RFC 3550: how much later than by its timestamp a packet arrived after the
   * one before it, in timestamp units.
   */
  function Lateness(before: Observation, o: Observation): real {
    (o.arrivalTime - before.arrivalTime) * o.clockRate as real
    - (o.packet.timestamp as int - before.packet.timestamp as int) as real
  }

  predicate OneRate(h: History) {
    forall i :: 0 < i < |h| ==> h[i].clockRate == h[i - 1].clockRate
  }

  lemma LatenessIsTransit(before: Observation, o: Observation)
    requires o.clockRate == before.clockRate
    ensures Lateness(before, o) == Transit(o) - Transit(before)
  {
    var r := o.clockRate as real;
    assert (o.arrivalTime - before.arrivalTime) * r == o.arrivalTime * r - before.arrivalTime * r;
  }

  /** At one clock rate, every arrival moves the jitter a sixteenth of the way to the size of its lateness. */
  lemma JitterStep(h: History, o: Observation)
    requires h != [] && o.clockRate == Last(h).clockRate
    ensures var d := Lateness(Last(h), o);
            Jitter(h + [o]) == Jitter(h) + ((if d < 0.0 then -d else d) - Jitter(h)) / 16.0
  {
    hide Lateness, Transit;
    LatenessIsTransit(Last(h), o);
    assert Init(h + [o]) == h && Last(h + [o]) == o;
  }

  /** A stream whose packets arrive as far apart as their timestamps say has no jitter. */
  lemma {:induction false} JitterOfPunctualStream(h: History)
    requires OneRate(h) && forall i :: 0 < i < |h| ==> Lateness(h[i - 1], h[i]) == 0.0
    ensures Jitter(h) == 0.0
  {
    hide Lateness, Transit;
    if |h| > 1 {
      JitterOfPunctualStream(Init(h));
      LatenessIsTransit(Last(Init(h)), Last(h));
      assert Lateness(h[|h| - 2], h[|h| - 1]) == 0.0;
    }
  }

  /** Of a steady lateness or earliness, each arrival closes a sixteenth of the gap between it and the jitter. */
  lemma {:induction false} JitterOfSteadyStream(h: History, change: real)
    requires h != [] && OneRate(h) && change >= 0.0
    requires forall i :: 0 < i < |h| ==>
      Lateness(h[i - 1], h[i]) == change || Lateness(h[i - 1], h[i]) == -change
    ensures change - Jitter(h) == Decayed(change, |h| - 1)
  {
    hide Lateness, Transit;
    forall i | 0 < i < |h| ensures Abs(Transit(h[i]) - Transit(h[i - 1])) == change {
      LatenessIsTransit(h[i - 1], h[i]);
    }
    JitterGain(h, change);
  }

  // ---------------------------------------------------------------- one arrival more

  /** What one arrival more does to the statistics that are about the latest packet, the first and all. */
  lemma SnapshotStep(h: History, o: Observation, ssrc: int)
    ensures var stats := StatsOf(h + [o], ssrc);
            && stats.ssrc == ssrc && stats.payloadType == o.packet.payloadType && stats.packetCount == |h| + 1
            && stats.firstExtended == (if h == [] then o.packet.sequenceNumber else StatsOf(h, ssrc).firstExtended)
            && (h != [] ==>
                && StatsOf(h, ssrc).highestExtended <= stats.highestExtended
                && StatsOf(h, ssrc).duplicateCount <= stats.duplicateCount
                && StatsOf(h, ssrc).outOfOrderCount <= stats.outOfOrderCount)
  {
    hide Unwrap, Jitter, Range, Missing, Early;
    var g := h + [o];
    assert Init(g) == h && Last(g) == o;
    if h != [] {
      var e := Exts(g);
      assert Init(e) == Exts(h);
      assert Exts(h)[0] == e[0];
      assert Max(Exts(h)) in e;
    }
  }
}
