/**
 * Every buffer in the pcapng format's own terms: one that begins with a section header's type is laid out as
 * blocks and something that stops the reading, so that what its blocks mean says all about reading it; and
 * what the strict reader accepts is told from the layout.
 */
module PcapngLanguage {
  import opened Bytes
  import opened Wrappers
  import opened Capture
  import opened PcapngReader
  import opened PcapngReference

  // ---------------------------------------------------------------- every body

  lemma WordBytes(order: Order, s: bytes, at: nat) returns (n: u32)
    requires at + 4 <= |s|
    ensures n == Field(order, s, at, 4) && Pack(order, n, 4) == s[at..at + 4]
  {
    PackOfWord(order, s, at);
    n := Field(order, s, at, 4);
  }

  lemma HalfBytes(order: Order, s: bytes, at: nat) returns (n: u16)
    requires at + 2 <= |s|
    ensures n == Field(order, s, at, 2) && Pack(order, n, 2) == s[at..at + 2]
  {
    Widths();
    PackOfField(order, s, at, 2);
    n := Field(order, s, at, 2);
  }

  lemma {:induction false} OptionsOf(order: Order, s: bytes) returns (opts: seq<Filled>, end: OptionsEnd)
    ensures AllFilled(opts) && EndFits(end) && PrintOptions(order, opts, end) == s
    decreases |s|
  {
    hide Pack, Field;
    opts, end := [], BodyEnds(s);
    if |s| >= 4 {
      var code := HalfBytes(order, s, 0);
      var length := HalfBytes(order, s, 2);
      assert PrintHead(order, code, length) == s[..4];
      hide PrintHead;
      if code == OPT_ENDOFOPT {
        end := EndMark(length, s[4..]);
      } else if 4 + length > |s| {
        end := Overlong(code, length, s[4..]);
      } else {
        var o := Opt(code, s[4..4 + length]);
        var next := 4 + length + Pad4(length);
        if next > |s| {
          end := Unfilled(o, s[4 + length..]);
          assert s == s[..4] + o.value + s[4 + length..];
        } else {
          var more, e := OptionsOf(order, s[next..]);
          opts, end := [Filled(o, s[4 + length..next])] + more, e;
          assert s == s[..4] + o.value + s[4 + length..next] + s[next..];
          assert opts[1..] == more;
        }
      }
    }
  }

  lemma IdbOf(order: Order, body: bytes) returns (b: Block)
    ensures WellFormed(b) && BlockType(b) == IDB_TYPE && PrintBody(order, b) == body
  {
    hide Pack, Field, PrintOptions;
    b := Short(IDB_TYPE, body);
    if |body| >= 8 {
      var linkType := HalfBytes(order, body, 0);
      var reserved := HalfBytes(order, body, 2);
      var snapLen := WordBytes(order, body, 4);
      var opts, end := OptionsOf(order, body[8..]);
      b := InterfaceDescription(linkType, reserved, snapLen, opts, end);
      assert body == body[0..2] + body[2..4] + body[4..8] + body[8..];
    }
  }

  lemma EpbOf(order: Order, body: bytes) returns (b: Block)
    ensures WellFormed(b) && BlockType(b) == EPB_TYPE && PrintBody(order, b) == body
  {
    hide Pack, Field;
    b := Short(EPB_TYPE, body);
    if |body| >= 20 {
      var iface := WordBytes(order, body, 0);
      var high := WordBytes(order, body, 4);
      var low := WordBytes(order, body, 8);
      var claimed := WordBytes(order, body, 12);
      var original := WordBytes(order, body, 16);
      var ticks: nat := (high as int) * 0x1_0000_0000 + low;
      assert ticks / 0x1_0000_0000 == high && ticks % 0x1_0000_0000 == low;
      assert PrintEpbHeader(order, iface, ticks, claimed, original) == body[..20];
      hide PrintEpbHeader;
      if 20 + claimed > |body| {
        b := Overrun(iface, ticks, claimed, original, body[20..]);
      } else {
        b := EnhancedPacket(iface, ticks, original, body[20..20 + claimed], body[20 + claimed..]);
        assert body == body[..20] + body[20..20 + claimed] + body[20 + claimed..];
      }
    }
  }

  /** Every body of every type but a section header's is some block's, in either byte order. */
  lemma BlockOf(order: Order, blockType: u32, body: bytes) returns (b: Block)
    requires blockType != SHB_NUMBER
    ensures WellFormed(b) && BlockType(b) == blockType && PrintBody(order, b) == body
  {
    hide Pack, Field, PrintOptions, PrintEpbHeader;
    if blockType == IDB_TYPE {
      b := IdbOf(order, body);
    } else if blockType == EPB_TYPE {
      b := EpbOf(order, body);
    } else if blockType == SPB_TYPE {
      b := Short(SPB_TYPE, body);
      if |body| >= 4 {
        var original := WordBytes(order, body, 0);
        b := SimplePacket(original, body[4..]);
        assert body == body[0..4] + body[4..];
      }
    } else {
      b := Other(blockType, body);
    }
  }

  lemma {:induction false} OptionsSize(opts: seq<Filled>, end: OptionsEnd, order: Order, other: Order)
    ensures |PrintOptions(order, opts, end)| == |PrintOptions(other, opts, end)|
  {
    hide Pack;
    if opts != [] { OptionsSize(opts[1..], end, order, other); }
  }

  /** A body is as long in one byte order as in the other. */
  lemma BodySize(b: Block, order: Order, other: Order)
    ensures |PrintBody(order, b)| == |PrintBody(other, b)|
  {
    hide Pack, PrintOptions, PrintEpbHeader;
    if b.InterfaceDescription? { OptionsSize(b.opts, b.end, order, other); }
  }

  // ---------------------------------------------------------------- every buffer

  /** What stands at the start of a buffer, read in the byte order of the section it is in. */
  datatype First = Block(laid: Laid) | End(tail: Tail)

  ghost predicate StandsFirst(f: First, order: Order, s: bytes) {
    match f
    case Block(l) => Printable(l) && Print(order, l) <= s
    case End(t) => TailFits(t) && PrintTail(order, t) == s
  }

  lemma HeaderAt(o: Order, claimed: u32, s: bytes)
    requires MIN_BLOCK_SIZE <= claimed <= |s|
    requires s[..4] == Pack(o, SHB_NUMBER, 4) && s[4..8] == Pack(o, claimed, 4) && s[8..12] == Bom(o)
    ensures Printable(SectionHeader(o, s[12..claimed]))
    ensures forall order :: Print(order, SectionHeader(o, s[12..claimed])) == s[..claimed]
  {
    hide Pack;
    assert s[..claimed] == s[..4] + s[4..8] + (s[8..12] + s[12..claimed]);
  }

  lemma HeaderFirst(order: Order, s: bytes) returns (f: First)
    requires |s| >= MIN_BLOCK_SIZE && s[..4] == SHB_MAGIC
    ensures StandsFirst(f, order, s)
    ensures if f.Block? then f.laid.SectionHeader? else f.tail.HeaderClaim? || f.tail.BadMark?
  {
    hide Pack, Field, Print, Printable;
    if s[8..12] == BOM_BIG_ENDIAN || s[8..12] == BOM_LITTLE_ENDIAN {
      var o := if s[8..12] == BOM_BIG_ENDIAN then Big else Little;
      MagicNumber(o);
      var claimed := WordBytes(o, s, 4);
      hide PrintTail;
      if MIN_BLOCK_SIZE <= claimed <= |s| {
        f := Block(SectionHeader(o, s[12..claimed]));
        HeaderAt(o, claimed, s);
      } else {
        f := End(HeaderClaim(o, claimed, s[12..]));
        HeaderClaimAt(order, o, claimed, s);
      }
    } else {
      f := End(BadMark(s[4..8], s[8..12], s[12..]));
      assert s == s[..4] + s[4..8] + s[8..12] + s[12..];
    }
  }

  lemma WithinAt(order: Order, b: Block, claimed: u32, s: bytes)
    requires WellFormed(b) && MIN_BLOCK_SIZE <= claimed <= |s|
    requires s[..4] == Pack(order, BlockType(b), 4) && s[4..8] == Pack(order, claimed, 4)
    requires PrintBody(order, b) == s[8..claimed - 4]
    ensures Printable(Within(b, s[claimed - 4..claimed]))
    ensures Print(order, Within(b, s[claimed - 4..claimed])) == s[..claimed]
  {
    hide Pack, PrintBody, WellFormed, BlockType;
    forall other ensures |PrintBody(other, b)| == claimed - 12 {
      BodySize(b, order, other);
    }
    assert s[..claimed] == s[..4] + s[4..8] + (s[8..claimed - 4] + s[claimed - 4..claimed]);
  }

  lemma BlockFirst(order: Order, s: bytes) returns (f: First)
    requires |s| >= MIN_BLOCK_SIZE && s[..4] != SHB_MAGIC
    ensures StandsFirst(f, order, s)
  {
    hide Pack, Field, PrintBody, WellFormed, BlockType, Print, Printable, PrintTail;
    assert s[0..4] == s[..4];
    var blockType := WordBytes(order, s, 0);
    NumberOfMagic(order, blockType);
    var claimed := WordBytes(order, s, 4);
    if MIN_BLOCK_SIZE <= claimed <= |s| {
      var b := BlockOf(order, blockType, s[8..claimed - 4]);
      WithinAt(order, b, claimed, s);
      f := Block(Within(b, s[claimed - 4..claimed]));
    } else {
      f := End(BlockClaim(blockType, claimed, s[8..]));
      BlockClaimAt(order, blockType, claimed, s);
    }
  }

  lemma LaidFront(order: Order, l: Laid, ls: seq<Laid>, tail: Tail)
    requires Printable(l) && AllPrintable(ls)
    ensures AllPrintable([l] + ls)
    ensures var o := OrderFor(order, l);
            PrintAll(order, [l] + ls) + PrintTail(EndOrder(order, [l] + ls), tail)
            == Print(order, l) + (PrintAll(o, ls) + PrintTail(EndOrder(o, ls), tail))
  {
    hide Print, Printable, PrintTail;
    assert ([l] + ls)[1..] == ls;
    var o := OrderFor(order, l);
    assert PrintAll(order, [l] + ls) == Print(order, l) + PrintAll(o, ls);
    assert EndOrder(order, [l] + ls) == EndOrder(o, ls);
  }

  lemma {:induction false} LaidOut(order: Order, s: bytes) returns (ls: seq<Laid>, tail: Tail)
    ensures AllPrintable(ls) && TailFits(tail)
    ensures PrintAll(order, ls) + PrintTail(EndOrder(order, ls), tail) == s
    ensures |s| >= MIN_BLOCK_SIZE && s[..4] == SHB_MAGIC ==> IsFile(ls, tail)
    decreases |s|
  {
    hide Print, Printable, PrintTail, TailFits;
    assert [] + s == s;
    if |s| < MIN_BLOCK_SIZE {
      ls, tail := [], Scrap(s);
      ScrapFits(order, s);
    } else {
      var f: First;
      if s[..4] == SHB_MAGIC { f := HeaderFirst(order, s); } else { f := BlockFirst(order, s); }
      match f
      case End(t) =>
        ls, tail := [], t;
      case Block(l) =>
        var more, t := LaidOut(OrderFor(order, l), s[|Print(order, l)|..]);
        ls, tail := [l] + more, t;
        hide AllPrintable, PrintAll, EndOrder;
        LaidFront(order, l, more, t);
    }
  }

  lemma ScrapFits(order: Order, s: bytes)
    requires |s| < MIN_BLOCK_SIZE
    ensures TailFits(Scrap(s)) && PrintTail(order, Scrap(s)) == s
  {
  }

  /** Every buffer that begins with a section header's type is a file; all others fail at once, as `BadStart` says. */
  lemma FileOf(data: bytes) returns (ls: seq<Laid>, tail: Tail)
    requires |data| >= MIN_BLOCK_SIZE && data[..4] == SHB_MAGIC
    ensures IsFile(ls, tail) && File(ls, tail) == data
  {
    hide IsFile, AllPrintable, TailFits;
    ls, tail := LaidOut(Big, data);
  }

  /** A strict run without an error has no malformed blocks, and nothing behind the last. */
  lemma {:induction false} NothingBehind(ls: seq<Laid>, tail: Tail, section: GoodSection)
    requires Meanings(ls, tail, section, true).error.None?
    ensures tail == Scrap([])
  {
    hide Meaning;
    if ls != [] {
      var here := Opened(ls[0], section);
      OrderStays(ls[0], here);
      NothingBehind(ls[1..], tail, LaidMeaning(ls[0], here).value.0);
    }
  }

  ghost predicate IsFileOf(ls: seq<Laid>, data: bytes, ps: seq<PcapPacket>) {
    && ls != [] && IsFile(ls, Scrap([])) && PrintAll(Big, ls) == data
    && Meanings(ls, Scrap([]), OUTSIDE, true) == Run(ps, None)
  }

  /**
   * The language of the strict reader: what it reads without complaint are exactly the buffers laid out as a
   * section header and blocks, none malformed and no packet's interface undeclared, as what they mean.
   */
  lemma AcceptedMeansFile(data: bytes, ps: seq<PcapPacket>)
    ensures Read(data, true) == Run(ps, None) <==> exists ls :: IsFileOf(ls, data, ps)
  {
    hide Packets, PrintAll, Meanings, AllPrintable;
    if Read(data, true) == Run(ps, None) {
      if |data| < MIN_BLOCK_SIZE || data[..4] != SHB_MAGIC { BadStart(data, true); }
      var ls, tail := FileOf(data);
      FileMeans(ls, tail, true);
      NothingBehind(ls, tail, OUTSIDE);
      assert PrintAll(Big, ls) + [] == PrintAll(Big, ls);
      assert IsFileOf(ls, data, ps);
    }
    if ls :| IsFileOf(ls, data, ps) {
      FileMeans(ls, Scrap([]), true);
      assert PrintAll(Big, ls) + [] == PrintAll(Big, ls);
    }
  }
}
