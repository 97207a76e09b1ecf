/** Classic pcap: the round trip, the timestamp split, lenient against strict, and agreement with pcapng. */
module PcapRoundTrip {
  import opened Bytes
  import opened Wrappers
  import opened Capture
  import opened Pcap
  import NgReader = PcapngReader
  import NgWriter = PcapngWriter
  import Ng = PcapngRoundTrip

  // ---------------------------------------------------------------- timestamps

  /**
   * The split of a non-negative timestamp carries into whole seconds, and its microseconds in all are
   * the timestamp rounded once, halves to even: a second being an even number of microseconds, rounding
   * the fraction alone makes no difference.
   */
  lemma SplitIsRound(timestamp: real)
    requires timestamp >= 0.0
    ensures var (sec, usec) := SplitTimestamp(timestamp);
            sec >= 0 && 0 <= usec < 1_000_000 && sec * 1_000_000 + usec == Round(timestamp * 1_000_000.0)
  {
    var sec := Truncate(timestamp);
    var part := (timestamp - sec as real) * 1_000_000.0;
    assert 0.0 <= part < 1_000_000.0;
    RoundShift(part, sec * 1_000_000);
    assert part + (sec * 1_000_000) as real == timestamp * 1_000_000.0;
    assert 0 <= Round(part) <= 1_000_000;
  }

  /** The seconds never need the carry and the rounding to disagree: the split is the division of one tick count. */
  lemma SplitIsDivision(timestamp: real)
    requires timestamp >= 0.0
    ensures var ticks := Round(timestamp * 1_000_000.0);
            ticks >= 0 && SplitTimestamp(timestamp) == (ticks / 1_000_000, ticks % 1_000_000)
  {
    SplitIsRound(timestamp);
  }

  /** A negative timestamp splits into parts that are not positive: nothing is carried. */
  lemma NegativeSplit(timestamp: real)
    requires timestamp < 0.0
    ensures var (sec, usec) := SplitTimestamp(timestamp);
            var ticks := Round(timestamp * 1_000_000.0);
            sec <= 0 && usec <= 0 && ticks <= 0 && (sec == 0 ==> usec == ticks) && (sec < 0 ==> ticks < 0)
  {
    var sec := Truncate(timestamp);
    var part := (timestamp - sec as real) * 1_000_000.0;
    assert -1_000_000.0 < part <= 0.0;
    assert sec == 0 ==> part == timestamp * 1_000_000.0;
  }

  // ---------------------------------------------------------------- round trip

  /** What a packet reads back as. */
  function OnGrid(p: PcapPacket, linkType: int): PcapPacket {
    var (sec, usec) := SplitTimestamp(p.timestamp);
    PcapPacket(sec as real + usec as real / 1_000_000.0, |p.data|, p.originalLength, linkType, p.data)
  }

  function AllOnGrid(ps: seq<PcapPacket>, linkType: int): (qs: seq<PcapPacket>)
    ensures |qs| == |ps| && forall i :: 0 <= i < |ps| ==> qs[i] == OnGrid(ps[i], linkType)
  {
    if ps == [] then [] else [OnGrid(ps[0], linkType)] + AllOnGrid(ps[1..], linkType)
  }

  lemma RecordStep(p: PcapPacket, rest: bytes, linkType: nat, strict: bool)
    requires BuildRecord(p).Success?
    ensures var s := BuildRecord(p).value;
            s != [] && NextStep(s + rest, Format(Little, 1_000_000, linkType), strict)
                       == Take(|s|, OnGrid(p, linkType))
  {
    hide WordsLE, Field, SplitTimestamp;
    var (sec, usec) := SplitTimestamp(p.timestamp);
    var ns := [sec, usec, |p.data|, p.originalLength];
    var data := BuildRecord(p).value + rest;
    assert data == WordsLE(ns) + (p.data + rest);
    WordAtLE(ns, p.data + rest, 0);
    WordAtLE(ns, p.data + rest, 1);
    WordAtLE(ns, p.data + rest, 2);
    WordAtLE(ns, p.data + rest, 3);
    assert data[16..16 + |p.data|] == p.data;
  }

  lemma {:induction false} RecordsRoundTrip(ps: seq<PcapPacket>, linkType: nat, strict: bool)
    requires BuildRecords(ps).Success?
    ensures Records(BuildRecords(ps).value, Format(Little, 1_000_000, linkType), strict)
            == Run(AllOnGrid(ps, linkType), None)
  {
    if ps != [] {
      hide BuildRecord, NextStep, OnGrid;
      var head, tail := BuildRecord(ps[0]).value, BuildRecords(ps[1..]).value;
      RecordStep(ps[0], tail, linkType, strict);
      assert (head + tail)[|head|..] == tail;
      RecordsRoundTrip(ps[1..], linkType, strict);
    }
  }

  lemma HeaderRoundTrip(linkType: int, rest: bytes)
    requires BuildHeader(linkType).Success?
    ensures var s := BuildHeader(linkType).value;
            |s| == 24 && linkType >= 0 && Header(s + rest) == Success(Format(Little, 1_000_000, linkType))
  {
    hide LE, UnLE, UnBE, Field;
    var data := BuildHeader(linkType).value + rest;
    assert data[0..4] == MAGIC_LE_US && data[20..24] == LE(linkType, 4);
    Widths();
    FieldPacked(data, 20, 4, linkType);
  }

  /** A written file is of version 2.4, in UTC, with a snap length of 2^18. */
  lemma HeaderFields(linkType: int)
    requires BuildHeader(linkType).Success?
    ensures var s := BuildHeader(linkType).value;
            && Field(Little, s, 4, 2) == 2 && Field(Little, s, 6, 2) == 4
            && Field(Little, s, 8, 4) == 0 && Field(Little, s, 12, 4) == 0
            && Field(Little, s, 16, 4) == 0x4_0000 && Field(Little, s, 20, 4) == linkType
  {
    hide LE, UnLE, UnBE, Field;
    Widths();
    var s := BuildHeader(linkType).value;
    assert s[4..6] == LE(2, 2) && s[6..8] == LE(4, 2) && s[8..12] == LE(0, 4) && s[12..16] == LE(0, 4);
    assert s[16..20] == LE(262144, 4) && s[20..24] == LE(linkType, 4);
    FieldPacked(s, 4, 2, 2);
    FieldPacked(s, 6, 2, 4);
    FieldPacked(s, 8, 4, 0);
    FieldPacked(s, 12, 4, 0);
    FieldPacked(s, 16, 4, 262144);
    FieldPacked(s, 20, 4, linkType);
  }

  /** The link type a written file ends up with. */
  function LinkOf(ps: seq<PcapPacket>, linkType: Option<int>): int
    requires linkType.None? ==> ps != []
  {
    if linkType.Some? then linkType.value else ps[0].linkType
  }

  /** The round trip: a written file reads back in either mode as the packets written, on the microsecond grid. */
  lemma WriteReadRoundTrip(ps: seq<PcapPacket>, linkType: Option<int>, strict: bool)
    requires Write(ps, linkType).Success?
    ensures var link := LinkOf(ps, linkType);
            (forall i :: 0 <= i < |ps| ==> ps[i].linkType == link)
            && Read(Write(ps, linkType).value, strict) == Run(AllOnGrid(ps, link), None)
  {
    hide BuildHeader, Header, Records, OnGrid;
    var link := LinkOf(ps, linkType);
    var header, records := BuildHeader(link).value, BuildRecords(ps).value;
    HeaderRoundTrip(link, records);
    assert (header + records)[24..] == records;
    RecordsRoundTrip(ps, link, strict);
  }

  // ---------------------------------------------------------------- agreement with pcapng

  lemma SameGrid(p: PcapPacket)
    requires BuildRecord(p).Success?
    ensures OnGrid(p, p.linkType) == Ng.OnGrid(p)
  {
    hide WordsLE;
    if p.timestamp >= 0.0 { SplitIsRound(p.timestamp); } else { NegativeSplit(p.timestamp); }
    var (sec, usec) := SplitTimestamp(p.timestamp);
    var ticks := NgWriter.Ticks(p);
    assert 0 <= ticks < 0x1_0000_0000 * 1_000_000;
    assert sec as real + usec as real / 1_000_000.0 == ticks as real / 1_000_000.0;
  }

  lemma {:induction false} RecordBuilt(ps: seq<PcapPacket>, i: nat)
    requires BuildRecords(ps).Success? && i < |ps|
    ensures BuildRecord(ps[i]).Success?
  {
    if i > 0 { RecordBuilt(ps[1..], i - 1); }
  }

  /** Written either way, packets of one link type read back the same. */
  lemma FormatsAgree(ps: seq<PcapPacket>, linkType: Option<int>, strict: bool)
    requires Write(ps, linkType).Success? && NgWriter.Write(ps).Success?
    ensures Read(Write(ps, linkType).value, strict) == NgReader.Read(NgWriter.Write(ps).value, strict)
  {
    WriteReadRoundTrip(ps, linkType, strict);
    Ng.WriteReadRoundTrip(ps, strict);
    var link := LinkOf(ps, linkType);
    assert AllOnGrid(ps, link) == Ng.AllOnGrid(ps) by {
      forall i | 0 <= i < |ps| ensures AllOnGrid(ps, link)[i] == Ng.AllOnGrid(ps)[i] {
        RecordBuilt(ps, i);
        SameGrid(ps[i]);
      }
    }
  }

  /** A record can be written exactly when its tick count, lengths and original length fit. */
  lemma RecordOutcome(p: PcapPacket)
    ensures BuildRecord(p).Success? <==>
      && 0 <= Round(p.timestamp * 1_000_000.0) < 0x1_0000_0000 * 1_000_000
      && Fits32(|p.data|) && Fits32(p.originalLength)
  {
    hide WordsLE;
    if p.timestamp >= 0.0 { SplitIsDivision(p.timestamp); } else { NegativeSplit(p.timestamp); }
  }

  lemma {:induction false} RecordsOutcome(ps: seq<PcapPacket>)
    ensures BuildRecords(ps).Success? <==> forall i :: 0 <= i < |ps| ==> BuildRecord(ps[i]).Success?
    ensures BuildRecords(ps).Failure? ==> BuildRecords(ps).error == StructError
  {
    if ps != [] {
      RecordsOutcome(ps[1..]);
      assert forall i :: 0 < i < |ps| ==> ps[i] == ps[1..][i - 1];
    }
  }

  /**
   * What the writer raises: its own error when there is no link type to take or a packet has another; else
   * the struct error exactly when the link type or a record does not fit.
   */
  lemma WriteOutcome(ps: seq<PcapPacket>, linkType: Option<int>)
    ensures Write(ps, linkType) == Failure(WriteError) <==>
      || (linkType.None? && ps == [])
      || exists i :: 0 <= i < |ps| && ps[i].linkType != LinkOf(ps, linkType)
    ensures Write(ps, linkType).Success? <==>
      && (linkType.None? ==> ps != [])
      && Fits32(LinkOf(ps, linkType))
      && forall i :: 0 <= i < |ps| ==> ps[i].linkType == LinkOf(ps, linkType) && BuildRecord(ps[i]).Success?
    ensures Write(ps, linkType).Failure? ==> Write(ps, linkType).error in {WriteError, StructError}
  {
    hide BuildRecord, LE;
    RecordsOutcome(ps);
  }

  // ---------------------------------------------------------------- lenient and strict

  /** A record's reading depends neither on the bytes that follow nor on the mode. */
  lemma StepIsLocal(a: bytes, b: bytes, format: GoodFormat, strict: bool)
    requires NextStep(a, format, true).Take?
    ensures NextStep(a + b, format, strict) == NextStep(a, format, true)
  {
    hide UnBE, UnLE;
    var s := a + b;
    assert s[0..4] == a[0..4] && s[4..8] == a[4..8] && s[8..12] == a[8..12] && s[12..16] == a[12..16];
    var size := NextStep(a, format, true).size;
    assert s[16..size] == a[16..size];
  }

  /** Lenient reading yields exactly what strict reading yields, and ends where that raises. */
  lemma {:induction false} RecordsLenient(data: bytes, format: GoodFormat)
    ensures Records(data, format, false) == Run(Records(data, format, true).items, None)
    decreases |data|
  {
    hide NextStep;
    if data != [] {
      var strictStep, step := NextStep(data, format, true), NextStep(data, format, false);
      if strictStep.Take? {
        StepIsLocal(data, [], format, false);
        assert data + [] == data;
        RecordsLenient(data[step.size..], format);
      } else {
        LenientStops(data, format);
      }
    }
  }

  lemma LenientStops(data: bytes, format: GoodFormat)
    requires !NextStep(data, format, true).Take?
    ensures NextStep(data, format, false).Stop?
  {
    hide Field;
  }

  /** Both modes yield the same packets from every buffer; lenient raises only over the global header. */
  lemma LenientYieldsTheSame(data: bytes)
    ensures Read(data, false).items == Read(data, true).items
    ensures Read(data, false).error == if Header(data).Failure? then Some(Header(data).error) else None
  {
    hide Records;
    if Header(data).Success? { RecordsLenient(data[24..], Header(data).value); }
  }

  // ---------------------------------------------------------------- appending records

  lemma {:induction false} RecordsConcat(a: bytes, b: bytes, format: GoodFormat, strict: bool)
    requires Records(a, format, true).error.None?
    ensures Records(a + b, format, strict) == Records(b, format, strict).After(Records(a, format, true).items)
    decreases |a|
  {
    hide NextStep;
    if a == [] {
      assert a + b == b;
      Records(b, format, strict).AfterNothing();
    } else {
      var step := NextStep(a, format, true);
      StepIsLocal(a, b, format, strict);
      assert (a + b)[step.size..] == a[step.size..] + b;
      RecordsConcat(a[step.size..], b, format, strict);
      Records(b, format, strict).AfterTwice([step.packet], Records(a[step.size..], format, true).items);
    }
  }
}
