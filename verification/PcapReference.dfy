/**
 * The classic pcap reader against the format's own terms: for every file in either byte order and either
 * resolution, whole or cut short, reading the bytes gives what the records mean.
 */
module PcapReference {
  import opened Bytes
  import opened Wrappers
  import opened Capture
  import opened Pcap
  import RoundTrip = PcapRoundTrip

  datatype Record = Record(seconds: u32, fraction: u32, originalLength: u32, data: bytes)

  /** `rest` is the version, zone, accuracy and snap length, which the reader passes over. */
  datatype File = File(order: Order, nano: bool, rest: bytes, linkType: u32, records: seq<Record>)

  predicate WellFormed(file: File) {
    |file.rest| == 16 && forall i :: 0 <= i < |file.records| ==> |file.records[i].data| < 0x1_0000_0000
  }

  function Magic(nano: bool): nat {
    if nano then 0xA1B2_3C4D else 0xA1B2_C3D4
  }

  function PrintRecord(order: Order, r: Record): (s: bytes)
    ensures |s| == 16 + |r.data|
  {
    Pack(order, r.seconds, 4) + Pack(order, r.fraction, 4) + Pack(order, |r.data|, 4)
    + Pack(order, r.originalLength, 4) + r.data
  }

  function PrintRecords(order: Order, rs: seq<Record>): bytes {
    if rs == [] then [] else PrintRecord(order, rs[0]) + PrintRecords(order, rs[1..])
  }

  function Print(file: File): bytes {
    Pack(file.order, Magic(file.nano), 4) + file.rest + Pack(file.order, file.linkType, 4)
    + PrintRecords(file.order, file.records)
  }

  /** A record's packet: its fraction counts microseconds or nanoseconds. */
  function Meaning(r: Record, nano: bool, linkType: nat): PcapPacket {
    var unit := if nano then 1_000_000_000.0 else 1_000_000.0;
    PcapPacket(r.seconds as real + r.fraction as real / unit, |r.data|, r.originalLength, linkType, r.data)
  }

  function Meanings(rs: seq<Record>, nano: bool, linkType: nat): (ps: seq<PcapPacket>)
    ensures |ps| == |rs| && forall i :: 0 <= i < |rs| ==> ps[i] == Meaning(rs[i], nano, linkType)
  {
    if rs == [] then [] else [Meaning(rs[0], nano, linkType)] + Meanings(rs[1..], nano, linkType)
  }

  function FormatOf(order: Order, nano: bool, linkType: nat): GoodFormat {
    Format(order, if nano then 1_000_000_000 else 1_000_000, linkType)
  }

  // ---------------------------------------------------------------- the global header

  lemma FourBytes(n: nat)
    ensures BE(n, 4) == BE(n / 0x1_0000, 2) + [n / 0x100 % 0x100, n % 0x100]
    ensures LE(n, 4) == [n % 0x100, n / 0x100 % 0x100] + LE(n / 0x1_0000, 2)
  {
    assert n / 0x100 / 0x100 == n / 0x1_0000;
    assert LE(n, 4) == [n % 0x100] + LE(n / 0x100, 3);
    assert BE(n, 4) == BE(n / 0x100, 3) + [n % 0x100];
  }

  lemma TwoBytes()
    ensures LE(0xA1B2, 2) == [0xB2, 0xA1] && BE(0xA1B2, 2) == [0xA1, 0xB2]
  {
  }

  function MagicAsBytes(order: Order, nano: bool): (s: bytes)
    ensures MagicInfo(s) == Some((order, if nano then 1_000_000_000 else 1_000_000))
  {
    match (order, nano)
    case (Big, false) => [0xA1, 0xB2, 0xC3, 0xD4]
    case (Big, true) => [0xA1, 0xB2, 0x3C, 0x4D]
    case (Little, false) => [0xD4, 0xC3, 0xB2, 0xA1]
    case (Little, true) => [0x4D, 0x3C, 0xB2, 0xA1]
  }

  lemma MagicBytes(order: Order, nano: bool)
    ensures Pack(order, Magic(nano), 4) == MagicAsBytes(order, nano)
  {
    hide BE, LE, MagicInfo;
    FourBytes(Magic(nano));
    TwoBytes();
  }

  lemma HeaderMeans(file: File)
    requires WellFormed(file)
    ensures |Print(file)| >= 24 && Print(file)[24..] == PrintRecords(file.order, file.records)
    ensures Header(Print(file)) == Success(FormatOf(file.order, file.nano, file.linkType))
  {
    hide Pack, Field, MagicInfo, MagicAsBytes;
    Widths();
    var s := Print(file);
    MagicBytes(file.order, file.nano);
    assert s[0..4] == Pack(file.order, Magic(file.nano), 4);
    WordOfPack(file.order, s, 20, file.linkType);
  }

  // ---------------------------------------------------------------- records

  lemma RecordMeans(r: Record, order: Order, nano: bool, linkType: nat, rest: bytes, strict: bool)
    requires |r.data| < 0x1_0000_0000
    ensures var s := PrintRecord(order, r);
            NextStep(s + rest, FormatOf(order, nano, linkType), strict) == Take(|s|, Meaning(r, nano, linkType))
  {
    hide Pack, Field;
    var s := PrintRecord(order, r) + rest;
    WordOfPack(order, s, 0, r.seconds);
    WordOfPack(order, s, 4, r.fraction);
    WordOfPack(order, s, 8, |r.data|);
    WordOfPack(order, s, 12, r.originalLength);
    assert s[16..16 + |r.data|] == r.data;
  }

  lemma {:induction false} RecordsMean(rs: seq<Record>, order: Order, nano: bool, linkType: nat)
    requires forall i :: 0 <= i < |rs| ==> |rs[i].data| < 0x1_0000_0000
    ensures Records(PrintRecords(order, rs), FormatOf(order, nano, linkType), true)
            == Run(Meanings(rs, nano, linkType), None)
  {
    hide NextStep, PrintRecord, Meaning, FormatOf;
    if rs != [] {
      var head, tail := PrintRecord(order, rs[0]), PrintRecords(order, rs[1..]);
      RecordMeans(rs[0], order, nano, linkType, tail, true);
      assert (head + tail)[|head|..] == tail;
      RecordsMean(rs[1..], order, nano, linkType);
    }
  }

  /** A proper prefix of some record. */
  ghost predicate IsCut(order: Order, cut: bytes) {
    exists r: Record :: |r.data| < 0x1_0000_0000 && cut < PrintRecord(order, r)
  }

  /**
   * The reader is right about the whole format: a file of either byte order and resolution reads as what its
   * records mean. Behind them, a record cut short yields nothing: strictly it is an error, which names
   * whether the record's header or its data is missing; leniently it is dropped.
   */
  lemma FileMeans(file: File, cut: bytes, strict: bool)
    requires WellFormed(file)
    requires IsCut(file.order, cut)
    ensures Read(Print(file) + cut, strict)
            == Run(Meanings(file.records, file.nano, file.linkType),
                   if !strict || cut == [] then None else if |cut| < 16 then Some(BufferTooShort)
                   else Some(TruncatedRecord))
  {
    hide Header, Records, NextStep, Meanings, PrintRecords;
    var s, format := Print(file), FormatOf(file.order, file.nano, file.linkType);
    HeaderMeans(file);
    RecordsMean(file.records, file.order, file.nano, file.linkType);
    HeaderIsLocal(s, cut);
    assert (s + cut)[24..] == s[24..] + cut;
    RoundTrip.RecordsConcat(s[24..], cut, format, strict);
    CutMeans(cut, format, strict);
    assert Meanings(file.records, file.nano, file.linkType) + [] == Meanings(file.records, file.nano, file.linkType);
  }

  lemma HeaderIsLocal(s: bytes, more: bytes)
    requires |s| >= 24
    ensures Header(s + more) == Header(s)
  {
    hide UnBE, UnLE, MagicInfo;
    assert (s + more)[0..4] == s[0..4] && (s + more)[20..24] == s[20..24];
  }

  lemma CutMeans(cut: bytes, format: GoodFormat, strict: bool)
    requires IsCut(format.order, cut)
    ensures Records(cut, format, strict)
            == Run([], if !strict || cut == [] then None else if |cut| < 16 then Some(BufferTooShort)
                       else Some(TruncatedRecord))
  {
    hide Pack, Field, PrintRecord;
    var r: Record :| |r.data| < 0x1_0000_0000 && cut < PrintRecord(format.order, r);
    var s := PrintRecord(format.order, r);
    if |cut| >= 16 {
      LengthField(r, format.order, cut);
    }
  }

  lemma LengthField(r: Record, order: Order, cut: bytes)
    requires |r.data| < 0x1_0000_0000 && 16 <= |cut| && cut < PrintRecord(order, r)
    ensures Field(order, cut, 8, 4) == |r.data|
  {
    hide Pack, Field;
    var s := PrintRecord(order, r);
    assert cut == s[..|cut|];
    assert cut[8..12] == s[8..12] == Pack(order, |r.data|, 4);
    WordOfPack(order, cut, 8, |r.data|);
  }

  // ---------------------------------------------------------------- every buffer

  lemma WordBytes(order: Order, s: bytes, at: nat) returns (n: u32)
    requires at + 4 <= |s|
    ensures n == Field(order, s, at, 4) && Pack(order, n, 4) == s[at..at + 4]
  {
    PackOfWord(order, s, at);
    n := Field(order, s, at, 4);
  }

  /** The record at the start of `s`, whose data may not be all there. */
  lemma RecordAt(order: Order, s: bytes) returns (r: Record)
    requires |s| >= 16
    ensures |r.data| == Field(order, s, 8, 4) < 0x1_0000_0000
    ensures var p := PrintRecord(order, r); if |p| <= |s| then p == s[..|p|] else s < p
  {
    hide Pack, Field;
    var seconds := WordBytes(order, s, 0);
    var fraction := WordBytes(order, s, 4);
    var length := WordBytes(order, s, 8);
    var original := WordBytes(order, s, 12);
    var there := s[16..];
    r := Record(seconds, fraction, original,
                if length <= |there| then there[..length] else there + Zeros(length - |there|));
    var p := PrintRecord(order, r);
    assert s[0..4] + s[4..8] + s[8..12] + s[12..16] == s[..16];
    assert p == s[..16] + r.data;
  }

  /** Less than a record header is always the start of some record. */
  lemma ShortIsCut(order: Order, s: bytes)
    requires |s| < 16
    ensures IsCut(order, s)
  {
    var r := RecordAt(order, s + Zeros(16 - |s|));
    var p := PrintRecord(order, r);
    assert s == (s + Zeros(16 - |s|))[..|s|];
    assert s == p[..|s|];
  }

  lemma RecordFront(order: Order, r: Record, rs: seq<Record>, cut: bytes)
    ensures PrintRecords(order, [r] + rs) + cut == PrintRecord(order, r) + (PrintRecords(order, rs) + cut)
  {
    hide PrintRecord;
    assert ([r] + rs)[1..] == rs;
  }

  lemma NoRecords(order: Order, cut: bytes)
    ensures PrintRecords(order, []) + cut == cut
  {
  }

  lemma CutRecord(order: Order, r: Record, s: bytes)
    requires |r.data| < 0x1_0000_0000 && s < PrintRecord(order, r)
    ensures IsCut(order, s)
  {
  }

  lemma {:induction false} RecordsOf(order: Order, s: bytes) returns (rs: seq<Record>, cut: bytes)
    ensures forall i :: 0 <= i < |rs| ==> |rs[i].data| < 0x1_0000_0000
    ensures IsCut(order, cut) && PrintRecords(order, rs) + cut == s
    decreases |s|
  {
    hide PrintRecord, PrintRecords, Field, IsCut;
    rs, cut := [], s;
    NoRecords(order, s);
    if |s| < 16 {
      ShortIsCut(order, s);
    } else {
      var r := RecordAt(order, s);
      var p := PrintRecord(order, r);
      if |p| <= |s| {
        rs, cut := RecordsOf(order, s[|p|..]);
        RecordFront(order, r, rs, cut);
        assert s == s[..|p|] + s[|p|..];
        rs := [r] + rs;
      } else {
        CutRecord(order, r, s);
      }
    }
  }

  lemma MagicOf(s: bytes) returns (order: Order, nano: bool)
    requires MagicInfo(s).Some?
    ensures MagicAsBytes(order, nano) == s
  {
    order := MagicInfo(s).value.0;
    nano := MagicInfo(s).value.1 == 1_000_000_000;
  }

  /** Every buffer with a readable global header is a file, and behind it at most a cut record. */
  lemma FileOf(data: bytes) returns (file: File, cut: bytes)
    requires Header(data).Success?
    ensures WellFormed(file) && IsCut(file.order, cut) && Print(file) + cut == data
  {
    hide Pack, Field, MagicInfo, MagicAsBytes, PrintRecords, IsCut;
    var order, nano := MagicOf(data[0..4]);
    MagicBytes(order, nano);
    var linkType := WordBytes(order, data, 20);
    var rs, c := RecordsOf(order, data[24..]);
    file, cut := File(order, nano, data[4..20], linkType, rs), c;
    assert data == data[0..4] + data[4..20] + data[20..24] + data[24..];
    assert Print(file) + cut == data[0..4] + data[4..20] + data[20..24] + (PrintRecords(order, rs) + cut);
  }

  ghost predicate IsFile(file: File, data: bytes, ps: seq<PcapPacket>) {
    WellFormed(file) && Print(file) == data && Meanings(file.records, file.nano, file.linkType) == ps
  }

  /** The language of the strict reader: what it reads without complaint are exactly the files, as what they mean. */
  lemma AcceptedMeansFile(data: bytes, ps: seq<PcapPacket>)
    ensures Read(data, true) == Run(ps, None) <==> exists file :: IsFile(file, data, ps)
  {
    hide Header, Records, WellFormed, Print, Meanings;
    if Read(data, true) == Run(ps, None) {
      var file, cut := FileOf(data);
      FileMeans(file, cut, true);
      assert Print(file) + [] == Print(file);
      assert IsFile(file, data, ps);
    }
    if file :| IsFile(file, data, ps) {
      ShortIsCut(file.order, []);
      FileMeans(file, [], true);
      assert Print(file) + [] == Print(file);
    }
  }

  /** The buffers that neither mode reads: too short for a global header, or of none of the four magics. */
  lemma HeaderFails(data: bytes, strict: bool)
    ensures Header(data).Failure? <==>
      |data| < 24 || forall order, nano :: data[..4] != Pack(order, Magic(nano), 4)
    ensures Header(data).Failure? ==>
      Read(data, strict) == Run([], Some(if |data| < 24 then BufferTooShort else InvalidMagic))
  {
    hide Pack, Field, Records, MagicInfo, MagicAsBytes;
    if |data| >= 24 {
      assert data[..4] == data[0..4];
      forall order, nano ensures Pack(order, Magic(nano), 4) == MagicAsBytes(order, nano) {
        MagicBytes(order, nano);
      }
      if MagicInfo(data[0..4]).Some? {
        var order, nano := MagicOf(data[0..4]);
        assert data[..4] == Pack(order, Magic(nano), 4);
      }
    }
  }
}
