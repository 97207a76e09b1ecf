/** The pcapng reader, strict and lenient (src/rtpkit/io/pcapng_reader.py). */
module PcapngReader {
  import opened Bytes
  import opened Wrappers
  import opened Capture

  const MIN_BLOCK_SIZE := 12

  const SHB_MAGIC: bytes := [0x0A, 0x0D, 0x0D, 0x0A]
  const IDB_TYPE := 1
  const SPB_TYPE := 3
  const EPB_TYPE := 6

  const BOM_BIG_ENDIAN: bytes := [0x1A, 0x2B, 0x3C, 0x4D]
  const BOM_LITTLE_ENDIAN: bytes := [0x4D, 0x3C, 0x2B, 0x1A]

  const OPT_ENDOFOPT := 0
  const OPT_IF_TSRESOL := 9
  const DEFAULT_TS_RESOL := 1_000_000

  datatype Interface = Interface(linkType: nat, tsResolution: nat)

  datatype Opt = Opt(code: nat, value: bytes)

  function Power(base: nat, exponent: nat): (p: nat)
    requires base > 0
    ensures p > 0
  {
    if exponent == 0 then 1 else base * Power(base, exponent - 1)
  }

  /** Exponents add where powers multiply. */
  lemma {:induction false} PowerAdds(base: nat, m: nat, n: nat)
    requires base > 0
    ensures Power(base, 1) == base
    ensures Power(base, m + n) == Power(base, m) * Power(base, n)
  {
    if m > 0 {
      PowerAdds(base, m - 1, n);
      assert base * (Power(base, m - 1) * Power(base, n)) == (base * Power(base, m - 1)) * Power(base, n);
    }
  }

  // ---------------------------------------------------------------- block bodies

  /** The options up to the end mark, or up to one that does not fit. */
  function Options(s: bytes, order: Order): seq<Opt>
    decreases |s|
  {
    if |s| < 4 then [] else
      var code, length := Field(order, s, 0, 2), Field(order, s, 2, 2);
      if code == OPT_ENDOFOPT || 4 + length > |s| then [] else
        var next := 4 + length + Pad4(length);
        [Opt(code, s[4..4 + length])] + if next > |s| then [] else Options(s[next..], order)
  }

  /** The resolution the first usable option declares, as ticks per second. */
  function TsResolution(opts: seq<Opt>): (r: nat)
    ensures r > 0
  {
    if opts == [] then DEFAULT_TS_RESOL
    else if opts[0].code == OPT_IF_TSRESOL && opts[0].value != [] then
      var raw := opts[0].value[0];
      if raw >= 0x80 then Power(2, raw % 0x80) else Power(10, raw)
    else TsResolution(opts[1..])
  }

  /** Resolutions as files have them: microseconds, nanoseconds, 1/1024 s, seconds, and no option. */
  lemma Resolutions()
    ensures TsResolution([Opt(9, [6])]) == 1_000_000
    ensures TsResolution([Opt(9, [9])]) == 1_000_000_000
    ensures TsResolution([Opt(9, [0x8A])]) == 1024
    ensures TsResolution([Opt(9, [0])]) == TsResolution([Opt(9, [0x80])]) == 1
    ensures TsResolution([]) == 1_000_000
  {
    assert Power(10, 3) == 1000 by { assert Power(10, 1) == 10; }
    PowerAdds(10, 3, 3);
    PowerAdds(10, 6, 3);
    assert Power(2, 5) == 32 by { assert Power(2, 2) == 4; }
    PowerAdds(2, 5, 5);
  }

  function Idb(body: bytes, order: Order): (r: Result<Interface, CaptureError>)
    ensures r.Failure? ==> r.error == MalformedBlock
    ensures r.Success? ==> r.value.tsResolution > 0
  {
    if |body| < 8 then Failure(MalformedBlock)
    else Success(Interface(Field(order, body, 0, 2), TsResolution(Options(body[8..], order))))
  }

  function Epb(body: bytes, order: Order, interfaces: seq<Interface>): (r: Result<PcapPacket, CaptureError>)
    requires Usable(interfaces)
    ensures r.Failure? ==> r.error == MalformedBlock
  {
    if |body| < 20 then Failure(MalformedBlock) else
      var ifaceId, tsHigh, tsLow := Field(order, body, 0, 4), Field(order, body, 4, 4), Field(order, body, 8, 4);
      var capLen, origLen := Field(order, body, 12, 4), Field(order, body, 16, 4);
      if 20 + capLen > |body| || ifaceId >= |interfaces| then Failure(MalformedBlock) else
        var iface := interfaces[ifaceId];
        var ticks := tsHigh * 0x1_0000_0000 + tsLow;
        Success(PcapPacket(ticks as real / iface.tsResolution as real, capLen, origLen, iface.linkType,
                           body[20..20 + capLen]))
  }

  function Spb(body: bytes, order: Order, interfaces: seq<Interface>): (r: Result<PcapPacket, CaptureError>)
    ensures r.Failure? ==> r.error == MalformedBlock
  {
    if |body| < 4 then Failure(MalformedBlock) else
      var origLen := Field(order, body, 0, 4);
      var captured := if origLen < |body| - 4 then origLen else |body| - 4;
      var linkType := if interfaces != [] then interfaces[0].linkType else 0;
      Success(PcapPacket(0.0, captured, origLen, linkType, body[4..4 + captured]))
  }

  predicate Usable(interfaces: seq<Interface>) {
    forall i :: 0 <= i < |interfaces| ==> interfaces[i].tsResolution > 0
  }

  // ---------------------------------------------------------------- the block stream

  /** What later blocks depend on: the section's byte order and its interfaces so far. */
  datatype Section = Section(order: Option<Order>, interfaces: seq<Interface>)

  type GoodSection = s: Section | Usable(s.interfaces) witness Section(None, [])

  /** What the reader does at the start of `data`: raise, stop, or take a block. */
  datatype Step = Raise(error: CaptureError) | Stop | Take(size: nat, section: GoodSection, packet: Option<PcapPacket>)

  predicate StartsSection(data: bytes) {
    |data| >= MIN_BLOCK_SIZE && data[0..4] == SHB_MAGIC
  }

  /** The section after looking for a section header at the start of `data`. */
  function Enter(data: bytes, section: GoodSection): (r: Result<GoodSection, CaptureError>)
    requires |data| >= MIN_BLOCK_SIZE
  {
    if StartsSection(data) then
      if data[8..12] == BOM_BIG_ENDIAN then Success(Section(Some(Big), []))
      else if data[8..12] == BOM_LITTLE_ENDIAN then Success(Section(Some(Little), []))
      else Failure(InvalidByteOrderMagic)
    else if section.order.None? then Failure(MalformedBlock)
    else Success(section)
  }

  /** The effect of one block's body: a new interface, a packet, neither, or a complaint. */
  function Effect(blockType: nat, body: bytes, section: GoodSection)
    : (r: Result<(GoodSection, Option<PcapPacket>), CaptureError>)
    requires section.order.Some?
    ensures r.Failure? ==> r.error == MalformedBlock
  {
    var order := section.order.value;
    if blockType == IDB_TYPE then
      var iface :- Idb(body, order);
      Success((section.(interfaces := section.interfaces + [iface]), None))
    else if blockType == EPB_TYPE then
      var packet :- Epb(body, order, section.interfaces);
      Success((section, Some(packet)))
    else if blockType == SPB_TYPE then
      var packet :- Spb(body, order, section.interfaces);
      Success((section, Some(packet)))
    else Success((section, None))
  }

  function NextStep(data: bytes, before: GoodSection, strict: bool): (step: Step)
    ensures step.Take? ==> MIN_BLOCK_SIZE <= step.size <= |data|
    ensures step.Stop? ==> !strict
  {
    if |data| < MIN_BLOCK_SIZE then
      if strict then Raise(BufferTooShort) else Stop
    else
      match Enter(data, before)
      case Failure(e) => Raise(e)
      case Success(section) =>
        var blockType, size := Field(section.order.value, data, 0, 4), Field(section.order.value, data, 4, 4);
        if size < MIN_BLOCK_SIZE || size > |data| then
          if strict then Raise(MalformedBlock) else Stop
        else
          match Effect(blockType, data[8..size - 4], section)
          case Failure(e) => if strict then Raise(e) else Take(size, section, None)
          case Success((after, packet)) => Take(size, after, packet)
  }

  /** The packets read from `data` on, in the section the reader is in. */
  function Packets(data: bytes, section: GoodSection, strict: bool): Run<PcapPacket, CaptureError>
    decreases |data|
  {
    if data == [] then Run([], None) else
      match NextStep(data, section, strict)
      case Raise(e) => Run([], Some(e))
      case Stop => Run([], None)
      case Take(size, after, packet) => Packets(data[size..], after, strict).After(OptionToSeq(packet))
  }

  const OUTSIDE: GoodSection := Section(None, [])

  /** What `read_pcapng` and `read_pcapng_lenient` yield, and how they end. */
  function Read(data: bytes, strict: bool): Run<PcapPacket, CaptureError> {
    if |data| < MIN_BLOCK_SIZE then Run([], Some(BufferTooShort)) else Packets(data, OUTSIDE, strict)
  }

  // ---------------------------------------------------------------- the reader's loops

  /** What is still to come when the options loop stands at `pos`. */
  ghost function OptionsFrom(data: bytes, pos: nat, order: Order): seq<Opt> {
    if pos > |data| then [] else Options(data[pos..], order)
  }

  lemma OptionsStep(data: bytes, pos: nat, order: Order)
    ensures pos + 4 > |data| ==> OptionsFrom(data, pos, order) == []
    ensures pos + 4 <= |data| ==>
      var code, length := Field(order, data, pos, 2), Field(order, data, pos + 2, 2);
      OptionsFrom(data, pos, order) ==
        if code == OPT_ENDOFOPT || pos + 4 + length > |data| then []
        else [Opt(code, data[pos + 4..pos + 4 + length])]
             + OptionsFrom(data, pos + 4 + length + Pad4(length), order)
  {
    hide UnBE, UnLE;
    if pos + 4 <= |data| {
      var rest := data[pos..];
      assert rest[0..2] == data[pos..pos + 2] && rest[2..4] == data[pos + 2..pos + 4];
      var code, length := Field(order, data, pos, 2), Field(order, data, pos + 2, 2);
      assert Field(order, rest, 0, 2) == code && Field(order, rest, 2, 2) == length;
      hide Field;
      if code != OPT_ENDOFOPT && pos + 4 + length <= |data| {
        var next := 4 + length + Pad4(length);
        assert rest[4..4 + length] == data[pos + 4..pos + 4 + length];
        assert next <= |rest| ==> rest[next..] == data[pos + next..];
      }
    }
  }

  lemma OptionsTurn(opts: seq<Opt>, data: bytes, pos: nat, order: Order)
    requires pos + 4 <= |data|
    ensures var code, length := Field(order, data, pos, 2), Field(order, data, pos + 2, 2);
            opts + OptionsFrom(data, pos, order) ==
              if code == OPT_ENDOFOPT || pos + 4 + length > |data| then opts
              else opts + [Opt(code, data[pos + 4..pos + 4 + length])]
                   + OptionsFrom(data, pos + 4 + length + Pad4(length), order)
  {
    hide Field, OptionsFrom;
    OptionsStep(data, pos, order);
    assert opts + [] == opts;
    var code, length := Field(order, data, pos, 2), Field(order, data, pos + 2, 2);
    if code != OPT_ENDOFOPT && pos + 4 + length <= |data| {
      Append(opts, Opt(code, data[pos + 4..pos + 4 + length]),
             OptionsFrom(data, pos + 4 + length + Pad4(length), order));
    }
  }

  lemma AllOptions(data: bytes, order: Order)
    ensures [] + OptionsFrom(data, 0, order) == Options(data, order)
  {
    assert data[0..] == data;
  }

  lemma NoOptions(opts: seq<Opt>, data: bytes, pos: nat, order: Order)
    requires pos + 4 > |data|
    ensures opts + OptionsFrom(data, pos, order) == opts
  {
    if pos <= |data| { OptionsStep(data, pos, order); }
    assert opts + [] == opts;
  }

  method IterOptions(data: bytes, order: Order) returns (opts: seq<Opt>)
    ensures opts == Options(data, order)
  {
    hide Options, Field, OptionsFrom;
    opts := [];
    var pos := 0;
    AllOptions(data, order);
    while pos + 4 <= |data|
      invariant opts + OptionsFrom(data, pos, order) == Options(data, order)
      decreases |data| - pos
    {
      OptionsTurn(opts, data, pos, order);
      var code, length := Field(order, data, pos, 2), Field(order, data, pos + 2, 2);
      pos := pos + 4;
      if code == OPT_ENDOFOPT {
        return;
      }
      if pos + length > |data| {
        return;
      }
      opts := opts + [Opt(code, data[pos..pos + length])];
      pos := pos + length + Pad4(length);
    }
    NoOptions(opts, data, pos, order);
  }

  method ParseIfTsresol(options: bytes, order: Order) returns (r: nat)
    ensures r == TsResolution(Options(options, order))
  {
    var opts := IterOptions(options, order);
    assert opts[0..] == opts;
    for i := 0 to |opts|
      invariant TsResolution(opts) == TsResolution(opts[i..])
    {
      assert opts[i..][1..] == opts[i + 1..];
      if opts[i].code == OPT_IF_TSRESOL && |opts[i].value| >= 1 {
        var raw := opts[i].value[0];
        return if raw >= 0x80 then Power(2, raw % 0x80) else Power(10, raw);
      }
    }
    return DEFAULT_TS_RESOL;
  }

  method ParseIdb(body: bytes, order: Order) returns (r: Result<Interface, CaptureError>)
    ensures r == Idb(body, order)
  {
    if |body| < 8 {
      return Failure(MalformedBlock);
    }
    var tsResolution := ParseIfTsresol(body[8..], order);
    return Success(Interface(Field(order, body, 0, 2), tsResolution));
  }

  /** The whole run, given the packets yielded before `here` and the step taken there. */
  ghost function Resume(packets: seq<PcapPacket>, here: bytes, step: Step, strict: bool)
    : Run<PcapPacket, CaptureError>
    requires step.Take? ==> step.size <= |here|
  {
    match step
    case Raise(e) => Run(packets, Some(e))
    case Stop => Run(packets, None)
    case Take(size, after, packet) => Packets(here[size..], after, strict).After(packets + OptionToSeq(packet))
  }

  /** One turn of the block loop, with `packets` yielded so far. */
  lemma PacketsStep(packets: seq<PcapPacket>, here: bytes, section: GoodSection, strict: bool)
    ensures here == [] ==> Packets(here, section, strict).After(packets) == Run(packets, None)
    ensures here != [] ==>
      Packets(here, section, strict).After(packets)
      == Resume(packets, here, NextStep(here, section, strict), strict)
  {
    assert packets + [] == packets;
    if here != [] && NextStep(here, section, strict).Take? {
      var step := NextStep(here, section, strict);
      Packets(here[step.size..], step.section, strict).AfterTwice(packets, OptionToSeq(step.packet));
    }
  }

  /** The body of the `try`: what one block adds to the section or yields. */
  method ApplyBlock(blockType: nat, body: bytes, order: Order, interfaces: seq<Interface>)
    returns (r: Result<(GoodSection, Option<PcapPacket>), CaptureError>)
    requires Usable(interfaces)
    ensures r == Effect(blockType, body, Section(Some(order), interfaces))
    ensures r.Success? ==> r.value.0.order == Some(order)
  {
    hide Field, TsResolution, Options;
    var section: GoodSection := Section(Some(order), interfaces);
    if blockType == IDB_TYPE {
      var iface :- ParseIdb(body, order);
      return Success((section.(interfaces := interfaces + [iface]), None));
    } else if blockType == EPB_TYPE {
      var packet :- Epb(body, order, interfaces);
      return Success((section, Some(packet)));
    } else if blockType == SPB_TYPE {
      var packet :- Spb(body, order, interfaces);
      return Success((section, Some(packet)));
    }
    return Success((section, None));
  }

  method ReadPcapng(data: bytes, strict: bool) returns (run: Run<PcapPacket, CaptureError>)
    ensures run == Read(data, strict)
  {
    hide Field, Packets, Effect;
    var bufLen := |data|;
    if bufLen < MIN_BLOCK_SIZE {
      return Run([], Some(BufferTooShort));
    }
    var packets, order: Option<Order>, interfaces: seq<Interface>, offset := [], None, [], 0;
    assert data[0..] == data;
    Packets(data, OUTSIDE, strict).AfterNothing();
    while offset < bufLen
      invariant offset <= bufLen && Usable(interfaces)
      invariant Packets(data, OUTSIDE, strict)
             == Packets(data[offset..], Section(order, interfaces), strict).After(packets)
    {
      ghost var here, section := data[offset..], Section(order, interfaces);
      PacketsStep(packets, here, section, strict);
      var remaining := bufLen - offset;
      if remaining < MIN_BLOCK_SIZE {
        return Run(packets, if strict then Some(BufferTooShort) else None);
      }
      assert here[0..4] == data[offset..offset + 4] && here[8..12] == data[offset + 8..offset + 12];
      var rawType := data[offset..offset + 4];
      if rawType == SHB_MAGIC {
        var bom := data[offset + 8..offset + 12];
        if bom == BOM_BIG_ENDIAN {
          order := Some(Big);
        } else if bom == BOM_LITTLE_ENDIAN {
          order := Some(Little);
        } else {
          return Run(packets, Some(InvalidByteOrderMagic));
        }
        interfaces := [];
      }
      if order.None? {
        return Run(packets, Some(MalformedBlock));
      }
      assert Enter(here, section) == Success(Section(order, interfaces));
      FieldsAt(data, offset, order.value);
      var blockType := Field(order.value, data, offset, 4);
      var blockTotalLength := Field(order.value, data, offset + 4, 4);
      var blockEnd := offset + blockTotalLength;
      if blockTotalLength < MIN_BLOCK_SIZE || blockEnd > bufLen {
        return Run(packets, if strict then Some(MalformedBlock) else None);
      }
      var body := data[offset + 8..blockEnd - 4];
      assert here[8..blockTotalLength - 4] == body && here[blockTotalLength..] == data[blockEnd..];
      var effect := ApplyBlock(blockType, body, order.value, interfaces);
      assert packets + [] == packets;
      if effect.Failure? {
        if strict {
          return Run(packets, Some(effect.error));
        }
      } else {
        interfaces := effect.value.0.interfaces;
        packets := packets + OptionToSeq(effect.value.1);
      }
      offset := blockEnd;
    }
    assert data[offset..] == [];
    PacketsStep(packets, [], Section(order, interfaces), strict);
    return Run(packets, None);
  }

  lemma FieldsAt(data: bytes, offset: nat, order: Order)
    requires offset + 8 <= |data|
    ensures Field(order, data[offset..], 0, 4) == Field(order, data, offset, 4)
    ensures Field(order, data[offset..], 4, 4) == Field(order, data, offset + 4, 4)
  {
    hide UnBE, UnLE;
    assert data[offset..][0..4] == data[offset..offset + 4];
    assert data[offset..][4..8] == data[offset + 4..offset + 8];
  }
}
