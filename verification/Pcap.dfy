/** The classic pcap reader and writer (src/rtpkit/io/pcap_reader.py, src/rtpkit/io/pcap_writer.py). */
module Pcap {
  import opened Bytes
  import opened Wrappers
  import opened Capture

  const GLOBAL_HEADER_SIZE := 24
  const RECORD_HEADER_SIZE := 16

  const MAGIC_LE_US: bytes := [0xD4, 0xC3, 0xB2, 0xA1]

  /** The byte order and fractional-second divisor a magic number stands for. */
  function MagicInfo(magic: bytes): (r: Option<(Order, nat)>)
    ensures r.Some? ==> r.value.1 > 0
  {
    if magic == [0xA1, 0xB2, 0xC3, 0xD4] then Some((Big, 1_000_000))
    else if magic == [0xA1, 0xB2, 0x3C, 0x4D] then Some((Big, 1_000_000_000))
    else if magic == MAGIC_LE_US then Some((Little, 1_000_000))
    else if magic == [0x4D, 0x3C, 0xB2, 0xA1] then Some((Little, 1_000_000_000))
    else None
  }

  /** What a file's global header fixes for all its records. */
  datatype Format = Format(order: Order, divisor: nat, linkType: nat)

  type GoodFormat = f: Format | f.divisor > 0 witness Format(Big, 1, 0)

  datatype Step = Raise(error: CaptureError) | Stop | Take(size: nat, packet: PcapPacket)

  function NextStep(data: bytes, format: GoodFormat, strict: bool): (step: Step)
    ensures step.Take? ==> RECORD_HEADER_SIZE <= step.size <= |data|
    ensures step.Raise? ==> strict
    ensures step.Stop? ==> !strict
  {
    if |data| < RECORD_HEADER_SIZE then
      if strict then Raise(BufferTooShort) else Stop
    else
      var sec, frac := Field(format.order, data, 0, 4), Field(format.order, data, 4, 4);
      var inclLen, origLen := Field(format.order, data, 8, 4), Field(format.order, data, 12, 4);
      if 16 + inclLen > |data| then
        if strict then Raise(TruncatedRecord) else Stop
      else
        Take(16 + inclLen,
             PcapPacket(sec as real + frac as real / format.divisor as real, inclLen, origLen, format.linkType,
                        data[16..16 + inclLen]))
  }

  function Records(data: bytes, format: GoodFormat, strict: bool): Run<PcapPacket, CaptureError>
    decreases |data|
  {
    if data == [] then Run([], None) else
      match NextStep(data, format, strict)
      case Raise(e) => Run([], Some(e))
      case Stop => Run([], None)
      case Take(size, packet) => Records(data[size..], format, strict).After([packet])
  }

  function Header(data: bytes): (r: Result<GoodFormat, CaptureError>) {
    if |data| < GLOBAL_HEADER_SIZE then Failure(BufferTooShort) else
      var info := MagicInfo(data[0..4]);
      if info.None? then Failure(InvalidMagic)
      else Success(Format(info.value.0, info.value.1, Field(info.value.0, data, 20, 4)))
  }

  /** What `read_pcap` and `read_pcap_lenient` yield, and how they end. */
  function Read(data: bytes, strict: bool): Run<PcapPacket, CaptureError> {
    match Header(data)
    case Failure(e) => Run([], Some(e))
    case Success(format) => Records(data[24..], format, strict)
  }

  method ReadPcap(data: bytes, strict: bool) returns (run: Run<PcapPacket, CaptureError>)
    ensures run == Read(data, strict)
  {
    hide Records, UnBE, UnLE;
    var bufLen := |data|;
    if bufLen < GLOBAL_HEADER_SIZE {
      return Run([], Some(BufferTooShort));
    }
    var info := MagicInfo(data[0..4]);
    if info.None? {
      return Run([], Some(InvalidMagic));
    }
    var order, divisor := info.value.0, info.value.1;
    var linkType := Field(order, data, 20, 4);
    ghost var format: GoodFormat := Format(order, divisor, linkType);
    var packets, offset := [], GLOBAL_HEADER_SIZE;
    Records(data[24..], format, strict).AfterNothing();
    while offset < bufLen
      invariant 24 <= offset <= bufLen
      invariant Records(data[24..], format, strict) == Records(data[offset..], format, strict).After(packets)
    {
      ghost var here := data[offset..];
      RecordsStep(packets, here, format, strict);
      var remaining := bufLen - offset;
      if remaining < RECORD_HEADER_SIZE {
        return Run(packets, if strict then Some(BufferTooShort) else None);
      }
      hide Field, NextStep;
      StepAt(data, offset, format, strict);
      var tsSec, tsFrac := Field(order, data, offset, 4), Field(order, data, offset + 4, 4);
      var inclLen, origLen := Field(order, data, offset + 8, 4), Field(order, data, offset + 12, 4);
      var recordStart := offset + RECORD_HEADER_SIZE;
      var recordEnd := recordStart + inclLen;
      if recordEnd > bufLen {
        return Run(packets, if strict then Some(TruncatedRecord) else None);
      }
      assert here[16 + inclLen..] == data[recordEnd..];
      packets := packets + [PcapPacket(tsSec as real + tsFrac as real / divisor as real, inclLen, origLen, linkType,
                                       data[recordStart..recordEnd])];
      offset := recordEnd;
    }
    assert data[offset..] == [];
    RecordsStep(packets, [], format, strict);
    return Run(packets, None);
  }

  ghost function Resume(packets: seq<PcapPacket>, here: bytes, step: Step, format: GoodFormat, strict: bool)
    : Run<PcapPacket, CaptureError>
    requires step.Take? ==> step.size <= |here|
  {
    match step
    case Raise(e) => Run(packets, Some(e))
    case Stop => Run(packets, None)
    case Take(size, packet) => Records(here[size..], format, strict).After(packets + [packet])
  }

  lemma RecordsStep(packets: seq<PcapPacket>, here: bytes, format: GoodFormat, strict: bool)
    ensures here == [] ==> Records(here, format, strict).After(packets) == Run(packets, None)
    ensures here != [] ==>
      Records(here, format, strict).After(packets)
      == Resume(packets, here, NextStep(here, format, strict), format, strict)
  {
    assert packets + [] == packets;
    if here != [] && NextStep(here, format, strict).Take? {
      var step := NextStep(here, format, strict);
      Records(here[step.size..], format, strict).AfterTwice(packets, [step.packet]);
    }
  }

  /** The step taken at `offset`, in terms of the whole buffer. */
  lemma StepAt(data: bytes, offset: nat, format: GoodFormat, strict: bool)
    requires offset + 16 <= |data|
    ensures var sec, frac := Field(format.order, data, offset, 4), Field(format.order, data, offset + 4, 4);
            var inclLen, origLen := Field(format.order, data, offset + 8, 4), Field(format.order, data, offset + 12, 4);
            NextStep(data[offset..], format, strict) ==
              if offset + 16 + inclLen > |data| then if strict then Raise(TruncatedRecord) else Stop
              else Take(16 + inclLen,
                        PcapPacket(sec as real + frac as real / format.divisor as real, inclLen, origLen,
                                   format.linkType, data[offset + 16..offset + 16 + inclLen]))
  {
    hide Field;
    FieldAt(data, offset, 0, format.order);
    FieldAt(data, offset, 4, format.order);
    FieldAt(data, offset, 8, format.order);
    FieldAt(data, offset, 12, format.order);
    var inclLen := Field(format.order, data, offset + 8, 4);
    assert offset + 16 + inclLen <= |data| ==>
      data[offset..][16..16 + inclLen] == data[offset + 16..offset + 16 + inclLen];
  }

  lemma FieldAt(data: bytes, offset: nat, k: nat, order: Order)
    requires offset + k + 4 <= |data|
    ensures Field(order, data[offset..], k, 4) == Field(order, data, offset + k, 4)
  {
    hide UnBE, UnLE;
    assert data[offset..][k..k + 4] == data[offset + k..offset + k + 4];
  }

  // ---------------------------------------------------------------- writing

  type Wire = Result<bytes, CaptureError>

  /** Seconds and microseconds of a timestamp, with the carry of a fraction that rounds up to a second. */
  function SplitTimestamp(timestamp: real): (int, int) {
    var sec := Truncate(timestamp);
    var usec := Round((timestamp - sec as real) * 1_000_000.0);
    if usec >= 1_000_000 then (sec + 1, usec - 1_000_000) else (sec, usec)
  }

  function BuildRecord(p: PcapPacket): Wire {
    var (sec, usec) := SplitTimestamp(p.timestamp);
    if !Fits32(sec) || !Fits32(usec) || !Fits32(|p.data|) || !Fits32(p.originalLength) then Failure(StructError)
    else Success(WordsLE([sec, usec, |p.data|, p.originalLength]) + p.data)
  }

  function BuildRecords(ps: seq<PcapPacket>): Wire {
    if ps == [] then Success([]) else
      var head :- BuildRecord(ps[0]);
      var tail :- BuildRecords(ps[1..]);
      Success(head + tail)
  }

  function BuildHeader(linkType: int): Wire {
    if !Fits32(linkType) then Failure(StructError)
    else Success(MAGIC_LE_US + LE(2, 2) + LE(4, 2) + LE(0, 4) + LE(0, 4) + LE(262144, 4) + LE(linkType, 4))
  }

  /** What `write_pcap` returns or raises; the link type is the first packet's unless one is given. */
  function Write(ps: seq<PcapPacket>, linkType: Option<int>): Wire {
    if linkType.None? && ps == [] then Failure(WriteError) else
      var link := if linkType.Some? then linkType.value else ps[0].linkType;
      if exists i :: 0 <= i < |ps| && ps[i].linkType != link then Failure(WriteError) else
        var header :- BuildHeader(link);
        var records :- BuildRecords(ps);
        Success(header + records)
  }

  method WritePcap(ps: seq<PcapPacket>, linkType: Option<int>) returns (r: Wire)
    ensures r == Write(ps, linkType)
  {
    hide BuildHeader, BuildRecord;
    var link: int;
    if linkType.None? {
      if ps == [] {
        return Failure(WriteError);
      }
      link := ps[0].linkType;
    } else {
      link := linkType.value;
    }
    for i := 0 to |ps|
      invariant forall k :: 0 <= k < i ==> ps[k].linkType == link
    {
      if ps[i].linkType != link {
        return Failure(WriteError);
      }
    }
    var file :- BuildHeader(link);
    ghost var header := file;
    assert ps[0..] == ps;
    for i := 0 to |ps|
      invariant Prepend(header, BuildRecords(ps)) == Prepend(file, BuildRecords(ps[i..]))
    {
      assert ps[i..][1..] == ps[i + 1..];
      var part :- BuildRecord(ps[i]);
      assert BuildRecords(ps[i + 1..]).Success? ==>
        file + (part + BuildRecords(ps[i + 1..]).value) == (file + part) + BuildRecords(ps[i + 1..]).value;
      file := file + part;
    }
    assert ps[|ps|..] == [] && file + [] == file;
    return Success(file);
  }

  ghost function Prepend(head: bytes, tail: Wire): Wire {
    if tail.Failure? then tail else Success(head + tail.value)
  }
}
