/**
 * The pcapng reader against the format's own terms: reading bytes laid out as blocks, in either byte order
 * and with any timestamp resolutions, options, unknown or malformed blocks and interface references, gives
 * what the blocks mean, up to something that stops the reading.
 */
module PcapngReference {
  import opened Bytes
  import opened Wrappers
  import opened Capture
  import opened PcapngReader

  /** The type of a section header, which reads the same in both byte orders. */
  const SHB_NUMBER := 0x0A0D0D0A

  // ---------------------------------------------------------------- blocks and what they mean

  /**
   * A block inside a section; `tail` is bytes the reader passes over. The last two are malformed: a body too
   * short for its type, and a packet that claims more data than its body has.
   */
  datatype Block =
    | InterfaceDescription(linkType: u16, reserved: u16, snapLen: u32, opts: seq<Filled>, end: OptionsEnd)
    | EnhancedPacket(iface: u32, ticks: nat, originalLength: u32, data: bytes, tail: bytes)
    | SimplePacket(originalLength: u32, data: bytes)
    | Other(blockType: u32, body: bytes)
    | Short(blockType: u32, body: bytes)
    | Overrun(iface: u32, ticks: nat, claimed: u32, originalLength: u32, data: bytes)

  /** An option and the bytes that fill it up to a word. */
  datatype Filled = Filled(opt: Opt, filler: bytes)

  /**
   * How an option list stops: with the body, or at most three bytes before its end; at an end mark; at an
   * option that claims more bytes than are left; or with an option whose filler is incomplete.
   */
  datatype OptionsEnd =
    | BodyEnds(rest: bytes)
    | EndMark(length: u16, behind: bytes)
    | Overlong(code: u16, length: u16, behind: bytes)
    | Unfilled(last: Opt, filler: bytes)

  predicate EndFits(end: OptionsEnd) {
    match end
    case BodyEnds(rest) => |rest| < 4
    case EndMark(_, _) => true
    case Overlong(code, length, behind) => code != 0 && |behind| < length
    case Unfilled(last, filler) => OptFits(last) && |filler| < Pad4(|last.value|)
  }

  /** All the options of a list that stops so. */
  function Listed(opts: seq<Filled>, end: OptionsEnd): seq<Opt> {
    if opts != [] then [opts[0].opt] + Listed(opts[1..], end)
    else if end.Unfilled? then [end.last] else []
  }

  predicate AllFilled(opts: seq<Filled>) {
    forall i :: 0 <= i < |opts| ==> OptFits(opts[i].opt) && |opts[i].filler| == Pad4(|opts[i].opt.value|)
  }

  predicate OptFits(o: Opt) {
    0 < o.code < 0x1_0000 && |o.value| < 0x1_0000
  }

  predicate WellFormed(b: Block) {
    match b
    case InterfaceDescription(_, _, _, opts, end) => EndFits(end) && AllFilled(opts)
    case EnhancedPacket(_, ticks, _, data, _) => ticks < 0x1_0000_0000_0000_0000 && |data| < 0x1_0000_0000
    case SimplePacket(_, _) => true
    case Other(blockType, _) => blockType !in {SHB_NUMBER, IDB_TYPE, SPB_TYPE, EPB_TYPE}
    case Short(blockType, body) =>
      || (blockType == IDB_TYPE && |body| < 8)
      || (blockType == SPB_TYPE && |body| < 4)
      || (blockType == EPB_TYPE && |body| < 20)
    case Overrun(_, ticks, claimed, _, data) => ticks < 0x1_0000_0000_0000_0000 && |data| < claimed
  }

  predicate IsResolution(o: Opt) {
    o.code == OPT_IF_TSRESOL && o.value != []
  }

  /** A power of 2 when the top bit is set, else a power of 10. */
  function TicksPerSecond(raw: byte): nat {
    if raw >= 0x80 then Power(2, raw % 0x80) else Power(10, raw)
  }

  /** The first option of code 9 with a value sets the resolution, whatever follows it; else it is 10^6. */
  lemma {:induction false} ResolutionIsDeclared(opts: seq<Opt>, i: nat)
    requires i <= |opts| && (forall j :: 0 <= j < i ==> !IsResolution(opts[j]))
    requires i < |opts| ==> IsResolution(opts[i])
    ensures TsResolution(opts) == if i < |opts| then TicksPerSecond(opts[i].value[0]) else DEFAULT_TS_RESOL
    decreases i
  {
    hide Power;
    if i > 0 {
      assert !IsResolution(opts[0]);
      assert forall j :: 0 <= j < |opts| - 1 ==> opts[1..][j] == opts[j + 1];
      ResolutionIsDeclared(opts[1..], i - 1);
    }
  }

  /** What a block adds to its section, and the packet it stands for. */
  function Meaning(b: Block, section: GoodSection): Result<(GoodSection, Option<PcapPacket>), CaptureError>
  {
    match b
    case InterfaceDescription(linkType, _, _, opts, end) =>
      var iface := Interface(linkType, TsResolution(Listed(opts, end)));
      Success((section.(interfaces := section.interfaces + [iface]), None))
    case EnhancedPacket(iface, ticks, originalLength, data, _) =>
      if iface >= |section.interfaces| then Failure(MalformedBlock) else
        var i := section.interfaces[iface];
        Success((section, Some(PcapPacket(ticks as real / i.tsResolution as real, |data|, originalLength,
                                          i.linkType, data))))
    case SimplePacket(originalLength, data) =>
      var kept := if originalLength <= |data| then data[..originalLength] else data;
      var linkType := if section.interfaces == [] then 0 else section.interfaces[0].linkType;
      Success((section, Some(PcapPacket(0.0, |kept|, originalLength, linkType, kept))))
    case Other(_, _) => Success((section, None))
    case Short(_, _) => Failure(MalformedBlock)
    case Overrun(_, _, _, _, _) => Failure(MalformedBlock)
  }

  // ---------------------------------------------------------------- the bytes of a block

  function Bom(order: Order): bytes {
    if order.Big? then BOM_BIG_ENDIAN else BOM_LITTLE_ENDIAN
  }

  function PrintOptions(order: Order, opts: seq<Filled>, end: OptionsEnd): bytes {
    if opts == [] then PrintEnd(order, end) else
      PrintOption(order, opts[0]) + PrintOptions(order, opts[1..], end)
  }

  function PrintEnd(order: Order, end: OptionsEnd): bytes {
    match end
    case BodyEnds(rest) => rest
    case EndMark(length, behind) => PrintHead(order, OPT_ENDOFOPT, length) + behind
    case Overlong(code, length, behind) => PrintHead(order, code, length) + behind
    case Unfilled(last, filler) => PrintHead(order, last.code, |last.value|) + last.value + filler
  }

  function PrintHead(order: Order, code: nat, length: nat): (s: bytes)
    ensures |s| == 4
  {
    Pack(order, code, 2) + Pack(order, length, 2)
  }

  function PrintOption(order: Order, o: Filled): bytes {
    PrintHead(order, o.opt.code, |o.opt.value|) + o.opt.value + o.filler
  }

  function BlockType(b: Block): u32 {
    match b
    case InterfaceDescription(_, _, _, _, _) => IDB_TYPE
    case EnhancedPacket(_, _, _, _, _) => EPB_TYPE
    case SimplePacket(_, _) => SPB_TYPE
    case Other(blockType, _) => blockType
    case Short(blockType, _) => blockType
    case Overrun(_, _, _, _, _) => EPB_TYPE
  }

  function PrintBody(order: Order, b: Block): bytes
  {
    match b
    case InterfaceDescription(linkType, reserved, snapLen, opts, end) =>
      Pack(order, linkType, 2) + Pack(order, reserved, 2) + Pack(order, snapLen, 4) + PrintOptions(order, opts, end)
    case EnhancedPacket(iface, ticks, originalLength, data, tail) =>
      PrintEpbHeader(order, iface, ticks, |data|, originalLength) + data + tail
    case SimplePacket(originalLength, data) => Pack(order, originalLength, 4) + data
    case Other(_, body) => body
    case Short(_, body) => body
    case Overrun(iface, ticks, claimed, originalLength, data) =>
      PrintEpbHeader(order, iface, ticks, claimed, originalLength) + data
  }

  function PrintEpbHeader(order: Order, iface: u32, ticks: nat, captured: nat, originalLength: u32): (s: bytes)
    ensures |s| == 20
  {
    Pack(order, iface, 4) + Pack(order, ticks / 0x1_0000_0000, 4) + Pack(order, ticks % 0x1_0000_0000, 4)
    + Pack(order, captured, 4) + Pack(order, originalLength, 4)
  }

  // ---------------------------------------------------------------- one body

  lemma HeadFields(order: Order, code: nat, length: nat, rest: bytes)
    requires code < 0x1_0000 && length < 0x1_0000
    ensures var s := PrintHead(order, code, length) + rest;
            Field(order, s, 0, 2) == code && Field(order, s, 2, 2) == length
  {
    hide Field, Pack;
    Widths();
    var s := PrintHead(order, code, length) + rest;
    FieldOfPack(order, s, 0, 2, code);
    FieldOfPack(order, s, 2, 2, length);
  }

  /** The reader takes a printed option and its filler, and goes on behind them. */
  lemma OptionStep(order: Order, o: Filled, more: bytes)
    requires OptFits(o.opt) && |o.filler| == Pad4(|o.opt.value|)
    ensures Options(PrintOption(order, o) + more, order) == [o.opt] + Options(more, order)
  {
    hide Field, PrintHead;
    var value := o.opt.value;
    var s, rest := PrintOption(order, o) + more, value + o.filler + more;
    HeadFields(order, o.opt.code, |value|, rest);
    assert s == PrintHead(order, o.opt.code, |value|) + rest;
    assert s[4..4 + |value|] == value;
    assert s[4 + |value| + Pad4(|value|)..] == more;
  }

  lemma EndStops(order: Order, end: OptionsEnd)
    requires EndFits(end)
    ensures Options(PrintEnd(order, end), order) == Listed([], end)
  {
    hide Field, PrintHead;
    match end
    case BodyEnds(_) =>
    case EndMark(length, behind) => HeadFields(order, OPT_ENDOFOPT, length, behind);
    case Overlong(code, length, behind) => HeadFields(order, code, length, behind);
    case Unfilled(last, filler) =>
      var s := PrintEnd(order, end);
      HeadFields(order, last.code, |last.value|, last.value + filler);
      assert s == PrintHead(order, last.code, |last.value|) + (last.value + filler);
      assert s[4..4 + |last.value|] == last.value;
  }

  lemma {:induction false} OptionsRoundTrip(order: Order, opts: seq<Filled>, end: OptionsEnd)
    requires EndFits(end) && AllFilled(opts)
    ensures Options(PrintOptions(order, opts, end), order) == Listed(opts, end)
  {
    hide Options, PrintOption, PrintEnd, EndFits;
    if opts == [] {
      EndStops(order, end);
    } else {
      OptionStep(order, opts[0], PrintOptions(order, opts[1..], end));
      OptionsRoundTrip(order, opts[1..], end);
    }
  }

  lemma IdbMeans(order: Order, b: Block)
    requires b.InterfaceDescription? && WellFormed(b)
    ensures Idb(PrintBody(order, b), order) == Success(Interface(b.linkType, TsResolution(Listed(b.opts, b.end))))
  {
    hide Field, Pack, Options, PrintOptions, TsResolution;
    Widths();
    var body := PrintBody(order, b);
    FieldOfPack(order, body, 0, 2, b.linkType);
    assert body[8..] == PrintOptions(order, b.opts, b.end);
    OptionsRoundTrip(order, b.opts, b.end);
  }

  lemma EpbHeaderFields(order: Order, iface: u32, ticks: nat, captured: nat, originalLength: u32, rest: bytes)
    requires ticks < 0x1_0000_0000_0000_0000 && captured < 0x1_0000_0000
    ensures var s := PrintEpbHeader(order, iface, ticks, captured, originalLength) + rest;
            && Field(order, s, 0, 4) == iface
            && Field(order, s, 4, 4) == ticks / 0x1_0000_0000 && Field(order, s, 8, 4) == ticks % 0x1_0000_0000
            && Field(order, s, 12, 4) == captured && Field(order, s, 16, 4) == originalLength
  {
    hide Field, Pack;
    var s := PrintEpbHeader(order, iface, ticks, captured, originalLength) + rest;
    WordOfPack(order, s, 0, iface);
    WordOfPack(order, s, 4, ticks / 0x1_0000_0000);
    WordOfPack(order, s, 8, ticks % 0x1_0000_0000);
    WordOfPack(order, s, 12, captured);
    WordOfPack(order, s, 16, originalLength);
  }

  lemma EpbMeans(order: Order, b: Block, section: GoodSection)
    requires b.EnhancedPacket? && WellFormed(b) && section.order == Some(order)
    ensures Epb(PrintBody(order, b), order, section.interfaces) ==
            if Meaning(b, section).Success? then Success(Meaning(b, section).value.1.value) else Failure(MalformedBlock)
  {
    hide Field, PrintEpbHeader;
    var body := PrintBody(order, b);
    EpbHeaderFields(order, b.iface, b.ticks, |b.data|, b.originalLength, b.data + b.tail);
    assert body == PrintEpbHeader(order, b.iface, b.ticks, |b.data|, b.originalLength) + (b.data + b.tail);
    assert body[20..20 + |b.data|] == b.data;
    assert b.ticks / 0x1_0000_0000 * 0x1_0000_0000 + b.ticks % 0x1_0000_0000 == b.ticks;
  }

  lemma SpbMeans(order: Order, b: Block, section: GoodSection)
    requires b.SimplePacket? && section.order == Some(order)
    ensures Spb(PrintBody(order, b), order, section.interfaces) == Success(Meaning(b, section).value.1.value)
  {
    hide Field, Pack;
    var body := PrintBody(order, b);
    WordOfPack(order, body, 0, b.originalLength);
    var kept := if b.originalLength <= |b.data| then b.data[..b.originalLength] else b.data;
    assert body[4..4 + |kept|] == kept;
  }

  lemma OverrunMeans(order: Order, b: Block, section: GoodSection)
    requires b.Overrun? && WellFormed(b) && section.order == Some(order)
    ensures Epb(PrintBody(order, b), order, section.interfaces) == Failure(MalformedBlock)
  {
    hide Field, PrintEpbHeader;
    EpbHeaderFields(order, b.iface, b.ticks, b.claimed, b.originalLength, b.data);
  }

  lemma EffectIsMeaning(order: Order, b: Block, section: GoodSection)
    requires WellFormed(b) && section.order == Some(order)
    ensures Effect(BlockType(b), PrintBody(order, b), section) == Meaning(b, section)
  {
    hide Idb, Epb, Spb, PrintBody, Field;
    match b
    case InterfaceDescription(_, _, _, _, _) => IdbMeans(order, b);
    case EnhancedPacket(_, _, _, _, _) => EpbMeans(order, b, section);
    case SimplePacket(_, _) => SpbMeans(order, b, section);
    case Overrun(_, _, _, _, _) => OverrunMeans(order, b, section);
    case Short(_, _) => ShortMeans(order, b, section);
    case Other(_, _) =>
  }

  lemma ShortMeans(order: Order, b: Block, section: GoodSection)
    requires b.Short? && WellFormed(b) && section.order == Some(order)
    ensures Effect(b.blockType, PrintBody(order, b), section) == Failure(MalformedBlock)
  {
    hide Field, Options, TsResolution;
  }

  // ---------------------------------------------------------------- what a file is made of

  /** Any four bytes can stand where the length is repeated: the reader does not look at them. */
  type FourBytes = s: bytes | |s| == 4 witness [0, 0, 0, 0]

  /** Of a section header, `rest` is all behind the byte-order mark, the repeated length included. */
  datatype Laid =
    | SectionHeader(byteOrder: Order, rest: bytes)
    | Within(block: Block, trailer: FourBytes)

  /** Every field holds its value, and the length its number. */
  predicate Printable(l: Laid) {
    match l
    case SectionHeader(_, rest) => 12 + |rest| < 0x1_0000_0000
    case Within(block, _) => WellFormed(block) && forall order :: 12 + |PrintBody(order, block)| < 0x1_0000_0000
  }

  predicate AllPrintable(ls: seq<Laid>) {
    forall i :: 0 <= i < |ls| ==> Printable(ls[i])
  }

  /** A section's byte order governs its own header. */
  function OrderFor(order: Order, l: Laid): Order {
    if l.SectionHeader? then l.byteOrder else order
  }

  /** A section header closes the section before it: its byte order and its interfaces are gone. */
  function Opened(l: Laid, section: GoodSection): GoodSection {
    if l.SectionHeader? then Section(Some(l.byteOrder), []) else section
  }

  function TypeOf(l: Laid): u32 {
    if l.SectionHeader? then SHB_NUMBER else BlockType(l.block)
  }

  function Contents(order: Order, l: Laid): (s: bytes)
    ensures |s| >= 4
  {
    match l
    case SectionHeader(byteOrder, rest) => Bom(byteOrder) + rest
    case Within(block, trailer) => PrintBody(order, block) + trailer
  }

  function Print(order: Order, l: Laid): (s: bytes)
    requires Printable(l)
    ensures MIN_BLOCK_SIZE <= |s| < 0x1_0000_0000
  {
    var o := OrderFor(order, l);
    var contents := Contents(o, l);
    Pack(o, TypeOf(l), 4) + Pack(o, 8 + |contents|, 4) + contents
  }

  /**
   * What stops the reading: fewer bytes than any block has; a header of a block or a section that claims
   * fewer bytes than any block has, or more than are there; or a section header with an unknown mark.
   */
  datatype Tail =
    | Scrap(scrap: bytes)
    | BlockClaim(blockType: u32, claimed: u32, behind: bytes)
    | HeaderClaim(byteOrder: Order, claimed: u32, behind: bytes)
    | BadMark(length: FourBytes, mark: FourBytes, behind: bytes)

  predicate TailFits(t: Tail) {
    match t
    case Scrap(scrap) => |scrap| < MIN_BLOCK_SIZE
    case BlockClaim(blockType, claimed, behind) =>
      blockType != SHB_NUMBER && |behind| >= 4 && !(MIN_BLOCK_SIZE <= claimed <= 8 + |behind|)
    case HeaderClaim(_, claimed, behind) => !(MIN_BLOCK_SIZE <= claimed <= 12 + |behind|)
    case BadMark(_, mark, _) => mark != BOM_BIG_ENDIAN && mark != BOM_LITTLE_ENDIAN
  }

  function PrintTail(order: Order, t: Tail): bytes {
    match t
    case Scrap(scrap) => scrap
    case BlockClaim(blockType, claimed, behind) => Pack(order, blockType, 4) + Pack(order, claimed, 4) + behind
    case HeaderClaim(byteOrder, claimed, behind) =>
      Pack(byteOrder, SHB_NUMBER, 4) + Pack(byteOrder, claimed, 4) + (Bom(byteOrder) + behind)
    case BadMark(length, mark, behind) => SHB_MAGIC + length + mark + behind
  }

  /** An unknown byte-order mark is an error in both modes, the others only strictly. */
  function TailError(t: Tail, strict: bool): Option<CaptureError> {
    match t
    case Scrap(scrap) => if scrap == [] || !strict then None else Some(BufferTooShort)
    case BlockClaim(_, _, _) => if strict then Some(MalformedBlock) else None
    case HeaderClaim(_, _, _) => if strict then Some(MalformedBlock) else None
    case BadMark(_, _, _) => Some(InvalidByteOrderMagic)
  }

  function PrintAll(order: Order, ls: seq<Laid>): bytes
    requires AllPrintable(ls)
    decreases |ls|
  {
    if ls == [] then [] else Print(order, ls[0]) + PrintAll(OrderFor(order, ls[0]), ls[1..])
  }

  /** The byte order that blocks leave the reader in. */
  function EndOrder(order: Order, ls: seq<Laid>): Order
    decreases |ls|
  {
    if ls == [] then order else EndOrder(OrderFor(order, ls[0]), ls[1..])
  }

  function LaidMeaning(l: Laid, here: GoodSection): Result<(GoodSection, Option<PcapPacket>), CaptureError>
  {
    if l.SectionHeader? then Success((here, None)) else Meaning(l.block, here)
  }

  /**
   * The packets that blocks stand for, and how reading them ends. Strictly, a malformed block or a packet of
   * an undeclared interface is an error; leniently it is left out.
   */
  function Meanings(ls: seq<Laid>, tail: Tail, section: GoodSection, strict: bool): Run<PcapPacket, CaptureError>
    decreases |ls|
  {
    if ls == [] then Run([], TailError(tail, strict)) else
      var here := Opened(ls[0], section);
      match LaidMeaning(ls[0], here)
      case Failure(e) => if strict then Run([], Some(e)) else Meanings(ls[1..], tail, here, strict)
      case Success((after, packet)) => Meanings(ls[1..], tail, after, strict).After(OptionToSeq(packet))
  }

  // ---------------------------------------------------------------- one block in a file

  lemma MagicNumber(order: Order)
    ensures Pack(order, SHB_NUMBER, 4) == SHB_MAGIC
  {
    assert LE(0x0A0D0D, 3) == [0x0D, 0x0D, 0x0A];
    assert BE(0x0A0D0D, 3) == [0x0A, 0x0D, 0x0D];
  }

  lemma SmallNumbers()
    ensures forall order :: Pack(order, 0, 2) == [0, 0]
    ensures BE(12, 4) == [0, 0, 0, 12] && LE(12, 4) == [12, 0, 0, 0]
  {
    assert BE(0, 3) == [0, 0, 0] && LE(0, 3) == [0, 0, 0];
  }

  /** The shortest section headers, in either byte order. */
  lemma HeaderBytes(order: Order)
    ensures Print(order, SectionHeader(Big, []))
            == [0x0A, 0x0D, 0x0D, 0x0A, 0, 0, 0, 12, 0x1A, 0x2B, 0x3C, 0x4D]
    ensures Print(order, SectionHeader(Little, []))
            == [0x0A, 0x0D, 0x0D, 0x0A, 12, 0, 0, 0, 0x4D, 0x3C, 0x2B, 0x1A]
  {
    MagicNumber(Big);
    MagicNumber(Little);
    SmallNumbers();
    hide BE, LE;
  }

  /** The numbers of the format: block types, and the mark that ends options. */
  lemma FormatNumbers(b: Block)
    ensures b.InterfaceDescription? ==> BlockType(b) == 1
    ensures b.SimplePacket? ==> BlockType(b) == 3
    ensures b.EnhancedPacket? || b.Overrun? ==> BlockType(b) == 6
    ensures forall order :: PrintEnd(order, EndMark(0, [])) == [0, 0, 0, 0]
  {
    SmallNumbers();
    hide Pack;
  }

  lemma NumberOfMagic(order: Order, n: u32)
    ensures Pack(order, n, 4) == SHB_MAGIC <==> n == SHB_NUMBER
  {
    hide BE, LE, UnBE, UnLE;
    Widths();
    MagicNumber(order);
    UnpackPackBE(n, 4);
    UnpackPackLE(n, 4);
    UnpackPackBE(SHB_NUMBER, 4);
    UnpackPackLE(SHB_NUMBER, 4);
  }

  lemma PrintedFields(order: Order, l: Laid, rest: bytes)
    requires Printable(l)
    ensures var o := OrderFor(order, l);
            var s := Print(order, l);
            && Field(o, s + rest, 0, 4) == TypeOf(l) && Field(o, s + rest, 4, 4) == |s|
            && (s + rest)[0..4] == Pack(o, TypeOf(l), 4) && (s + rest)[8..|s|] == Contents(o, l)
  {
    hide Field, Pack, Contents, Printable, TypeOf;
    var o := OrderFor(order, l);
    var s := Print(order, l);
    WordOfPack(o, s + rest, 0, TypeOf(l));
    WordOfPack(o, s + rest, 4, |s|);
  }

  lemma HeaderType(l: Laid)
    requires Printable(l)
    ensures TypeOf(l) == SHB_NUMBER <==> l.SectionHeader?
  {
    hide PrintBody;
  }

  /** At the start of a printed block, or of as much of it as reaches behind its first 12 bytes. */
  lemma PrintedEnters(order: Order, l: Laid, data: bytes, section: GoodSection)
    requires Printable(l) && (l.SectionHeader? || section.order == Some(order))
    requires |data| >= MIN_BLOCK_SIZE && data[..MIN_BLOCK_SIZE] == Print(order, l)[..MIN_BLOCK_SIZE]
    ensures Enter(data, section) == Success(Opened(l, section))
    ensures Field(OrderFor(order, l), data, 0, 4) == TypeOf(l)
    ensures Field(OrderFor(order, l), data, 4, 4) == |Print(order, l)|
  {
    var s, o := Print(order, l), OrderFor(order, l);
    PrintedFields(order, l, []);
    NumberOfMagic(o, TypeOf(l));
    HeaderType(l);
    hide Pack, UnBE, UnLE, Print, TypeOf, PrintBody, Printable;
    assert s + [] == s;
    assert data[0..4] == data[..12][0..4] && data[4..8] == data[..12][4..8] && data[8..12] == data[..12][8..12];
    assert s[0..4] == s[..12][0..4] && s[4..8] == s[..12][4..8] && s[8..12] == s[..12][8..12];
    if l.SectionHeader? { assert s[8..12] == Contents(o, l)[..4] == Bom(o); }
  }

  /** What one printed block does to the reader, whatever follows it. */
  function Outcome(size: nat, l: Laid, section: GoodSection, strict: bool): Step
  {
    match LaidMeaning(l, Opened(l, section))
    case Failure(e) => if strict then Raise(e) else Take(size, Opened(l, section), None)
    case Success((after, packet)) => Take(size, after, packet)
  }

  lemma LaidEffect(order: Order, l: Laid, s: bytes, section: GoodSection)
    requires Printable(l) && (l.SectionHeader? || section.order == Some(order))
    requires |s| >= 4 && s == Contents(OrderFor(order, l), l)
    ensures Effect(TypeOf(l), s[..|s| - 4], Opened(l, section)) == LaidMeaning(l, Opened(l, section))
  {
    hide Idb, Epb, Spb, PrintBody, Meaning;
    if l.Within? {
      assert s[..|s| - 4] == PrintBody(order, l.block);
      EffectIsMeaning(order, l.block, section);
    }
  }

  lemma BlockStep(order: Order, l: Laid, rest: bytes, section: GoodSection, strict: bool)
    requires Printable(l) && (l.SectionHeader? || section.order == Some(order))
    ensures var s := Print(order, l);
            NextStep(s + rest, section, strict) == Outcome(|s|, l, section, strict)
  {
    var s, o := Print(order, l), OrderFor(order, l);
    assert (s + rest)[..12] == s[..12];
    PrintedEnters(order, l, s + rest, section);
    PrintedFields(order, l, rest);
    LaidEffect(order, l, Contents(o, l), section);
    hide Print, Printable, Contents, TypeOf, Enter, Effect, Field, Pack, LaidMeaning;
    assert (s + rest)[8..|s| - 4] == Contents(o, l)[..|Contents(o, l)| - 4];
  }

  // ---------------------------------------------------------------- what stops the reading

  lemma BlockClaimMeans(order: Order, t: Tail, section: GoodSection, strict: bool)
    requires t.BlockClaim? && TailFits(t) && section.order == Some(order)
    ensures Packets(PrintTail(order, t), section, strict) == Run([], TailError(t, strict))
  {
    var s := PrintTail(order, t);
    NumberOfMagic(order, t.blockType);
    hide Field, Pack;
    assert s[0..4] == Pack(order, t.blockType, 4) && s[4..8] == Pack(order, t.claimed, 4);
    WordOfPack(order, s, 4, t.claimed);
  }

  lemma HeaderClaimMeans(order: Order, t: Tail, section: GoodSection, strict: bool)
    requires t.HeaderClaim? && TailFits(t)
    ensures Packets(PrintTail(order, t), section, strict) == Run([], TailError(t, strict))
  {
    var s, o := PrintTail(order, t), t.byteOrder;
    MagicNumber(o);
    hide Field, Pack, Effect;
    HeaderClaimFields(order, t);
    hide PrintTail, Bom;
    WordOfPack(o, s, 4, t.claimed);
    assert Enter(s, section) == Success(Section(Some(o), [])) by { MarkOf(o); }
  }

  lemma MarkOf(order: Order)
    ensures Bom(order) == BOM_BIG_ENDIAN <==> order.Big?
    ensures Bom(order) == BOM_LITTLE_ENDIAN <==> order.Little?
  {
    assert BOM_BIG_ENDIAN[0] != BOM_LITTLE_ENDIAN[0];
  }

  lemma HeaderClaimFields(order: Order, t: Tail)
    requires t.HeaderClaim?
    ensures var s, o := PrintTail(order, t), t.byteOrder;
            && |s| == 12 + |t.behind| && s[0..4] == Pack(o, SHB_NUMBER, 4)
            && s[4..8] == Pack(o, t.claimed, 4) && s[8..12] == Bom(o)
  {
    hide Pack;
  }

  lemma TailMeans(order: Order, t: Tail, section: GoodSection, strict: bool)
    requires TailFits(t)
    requires section.order == Some(order) || !t.BlockClaim?
    ensures Packets(PrintTail(order, t), section, strict) == Run([], TailError(t, strict))
  {
    if t.BlockClaim? {
      BlockClaimMeans(order, t, section, strict);
    } else if t.HeaderClaim? {
      HeaderClaimMeans(order, t, section, strict);
    } else if t.BadMark? {
      hide Field, Pack;
      var s := PrintTail(order, t);
      assert s[0..4] == SHB_MAGIC && s[8..12] == t.mark;
    }
  }

  /** The claims that bytes make, by their fields. */
  lemma HeaderClaimAt(order: Order, byteOrder: Order, claimed: u32, s: bytes)
    requires |s| >= 12 && s[..4] == Pack(byteOrder, SHB_NUMBER, 4) && s[4..8] == Pack(byteOrder, claimed, 4)
    requires s[8..12] == Bom(byteOrder)
    ensures PrintTail(order, HeaderClaim(byteOrder, claimed, s[12..])) == s
  {
    hide Pack;
    assert s == s[..4] + s[4..8] + (s[8..12] + s[12..]);
  }

  lemma BlockClaimAt(order: Order, blockType: u32, claimed: u32, s: bytes)
    requires |s| >= 8 && s[..4] == Pack(order, blockType, 4) && s[4..8] == Pack(order, claimed, 4)
    ensures PrintTail(order, BlockClaim(blockType, claimed, s[8..])) == s
  {
    hide Pack;
    assert s == s[..4] + s[4..8] + s[8..];
  }

  /** A block cut short is such a tail: strictly its error tells whether its first 12 bytes are missing. */
  lemma CutIsTail(order: Order, l: Laid, cut: bytes) returns (t: Tail)
    requires Printable(l) && cut < Print(order, l)
    ensures TailFits(t) && PrintTail(order, t) == cut
    ensures if |cut| < MIN_BLOCK_SIZE then t == Scrap(cut) else t.BlockClaim? || t.HeaderClaim?
  {
    var size, o := |Print(order, l)|, OrderFor(order, l);
    HeaderType(l);
    hide Printable, Print;
    t := Scrap(cut);
    if |cut| >= MIN_BLOCK_SIZE {
      CutStarts(order, l, cut);
      hide Pack, TypeOf, PrintTail;
      if l.SectionHeader? {
        t := HeaderClaim(o, size, cut[12..]);
        HeaderClaimAt(order, o, size, cut);
      } else {
        t := BlockClaim(TypeOf(l), size, cut[8..]);
        BlockClaimAt(order, TypeOf(l), size, cut);
      }
    }
  }

  lemma CutStarts(order: Order, l: Laid, cut: bytes)
    requires Printable(l) && cut < Print(order, l) && |cut| >= MIN_BLOCK_SIZE
    ensures var o := OrderFor(order, l);
            && cut[..4] == Pack(o, TypeOf(l), 4) && cut[4..8] == Pack(o, |Print(order, l)|, 4)
            && (l.SectionHeader? ==> cut[8..12] == Bom(o))
  {
    var s, o := Print(order, l), OrderFor(order, l);
    hide Pack, Printable, PrintBody, TypeOf, BlockType;
    assert s[..4] == Pack(o, TypeOf(l), 4) && s[4..8] == Pack(o, |s|, 4) && s[8..12] == Contents(o, l)[..4];
    if l.SectionHeader? { assert Contents(o, l)[..4] == Bom(o); }
    hide Print, Contents;
    assert cut == s[..|cut|];
    assert cut[..4] == s[..4] && cut[4..8] == s[4..8] && cut[8..12] == s[8..12];
  }

  // ---------------------------------------------------------------- a file

  lemma OrderStays(l: Laid, here: GoodSection)
    ensures LaidMeaning(l, here).Success? ==> LaidMeaning(l, here).value.0.order == here.order
  {
  }

  lemma {:induction false} BlocksMean(order: Order, ls: seq<Laid>, tail: Tail, section: GoodSection, strict: bool)
    requires AllPrintable(ls) && TailFits(tail)
    requires section.order == Some(order) || (if ls == [] then !tail.BlockClaim? else ls[0].SectionHeader?)
    ensures Packets(PrintAll(order, ls) + PrintTail(EndOrder(order, ls), tail), section, strict)
            == Meanings(ls, tail, section, strict)
    decreases |ls|
  {
    hide NextStep, LaidMeaning, Print, Printable, PrintTail, TailFits, TailError;
    var end := PrintTail(EndOrder(order, ls), tail);
    if ls == [] {
      assert [] + end == end;
      TailMeans(order, tail, section, strict);
    } else {
      var l, o := ls[0], OrderFor(order, ls[0]);
      var head, rest := Print(order, l), PrintAll(o, ls[1..]) + end;
      BlockStep(order, l, rest, section, strict);
      assert PrintAll(order, ls) + end == head + rest;
      assert (head + rest)[|head|..] == rest;
      var here := Opened(l, section);
      OrderStays(l, here);
      match LaidMeaning(l, here)
      case Failure(_) =>
        BlocksMean(o, ls[1..], tail, here, strict);
        Packets(rest, here, strict).AfterNothing();
      case Success((after, _)) =>
        BlocksMean(o, ls[1..], tail, after, strict);
    }
  }

  /** Blocks and a tail that begin like a file: with a section header, whole or not, or with a bad one. */
  predicate IsFile(ls: seq<Laid>, tail: Tail) {
    && AllPrintable(ls) && TailFits(tail)
    && if ls == [] then tail.HeaderClaim? || tail.BadMark? else ls[0].SectionHeader?
  }

  function File(ls: seq<Laid>, tail: Tail): bytes
    requires IsFile(ls, tail)
  {
    PrintAll(Big, ls) + PrintTail(EndOrder(Big, ls), tail)
  }

  /**
   * The reader is right about the whole format: a file reads as what its blocks mean, whatever its byte
   * orders, sections, options, resolutions, snap lengths, unknown or malformed blocks and repeated lengths,
   * and whatever stops the reading.
   */
  lemma FileMeans(ls: seq<Laid>, tail: Tail, strict: bool)
    requires IsFile(ls, tail)
    ensures Read(File(ls, tail), strict) == Meanings(ls, tail, OUTSIDE, strict)
  {
    hide Packets, Meanings, Printable, TailFits;
    BlocksMean(Big, ls, tail, OUTSIDE, strict);
    FileSize(ls, tail);
  }

  lemma FileSize(ls: seq<Laid>, tail: Tail)
    requires IsFile(ls, tail)
    ensures |File(ls, tail)| >= MIN_BLOCK_SIZE
  {
    hide Print, Printable, Pack, EndOrder;
  }

  // ---------------------------------------------------------------- what is not a file

  /** Without a section header at the start, or with an unknown byte-order mark in it, neither mode reads anything. */
  lemma BadStart(data: bytes, strict: bool)
    requires |data| < MIN_BLOCK_SIZE || data[..4] != SHB_MAGIC
             || (data[8..12] != BOM_BIG_ENDIAN && data[8..12] != BOM_LITTLE_ENDIAN)
    ensures Read(data, strict) ==
      Run([], Some(if |data| < MIN_BLOCK_SIZE then BufferTooShort
                   else if data[..4] != SHB_MAGIC then MalformedBlock else InvalidByteOrderMagic))
  {
    hide Field, Effect;
    if |data| >= MIN_BLOCK_SIZE { assert data[..4] == data[0..4]; }
  }

  /** Once inside a section, lenient reading raises only over a section header with an unknown byte-order mark. */
  lemma {:induction false} LenientRaises(data: bytes, section: GoodSection)
    requires section.order.Some?
    ensures Packets(data, section, false).error in {None, Some(InvalidByteOrderMagic)}
    decreases |data|
  {
    hide Field, Effect;
    if data != [] {
      StepKeepsOrder(data, section);
      match NextStep(data, section, false)
      case Raise(_) =>
      case Stop =>
      case Take(size, after, _) => LenientRaises(data[size..], after);
    }
  }

  lemma StepKeepsOrder(data: bytes, section: GoodSection)
    requires section.order.Some?
    ensures var step := NextStep(data, section, false);
            && (step.Take? ==> step.section.order.Some?)
            && (step.Raise? ==> step.error == InvalidByteOrderMagic)
  {
    hide Field, Idb, Epb, Spb;
  }

  /** So what begins with a section header's type is read leniently to its end, or to such a header. */
  lemma LenientErrors(data: bytes)
    requires |data| >= MIN_BLOCK_SIZE && data[..4] == SHB_MAGIC
    ensures Read(data, false).error in {None, Some(InvalidByteOrderMagic)}
  {
    hide Field, Effect;
    assert data[..4] == data[0..4];
    var any: GoodSection := Section(Some(Big), []);
    assert Enter(data, OUTSIDE) == Enter(data, any);
    LenientRaises(data, any);
  }
}
