/** Reading what was written, reading concatenated files, and lenient against strict reading of pcapng. */
module PcapngRoundTrip {
  import opened Bytes
  import opened Wrappers
  import opened Capture
  import opened R = PcapngReader
  import opened W = PcapngWriter

  // ---------------------------------------------------------------- one block

  /** A written block is whole words: its type, its length twice, and its body with zero filler between. */
  lemma BlockFrame(blockType: nat, body: bytes)
    requires blockType < 0x1_0000_0000 && WrapBlock(blockType, body).Success?
    ensures var s := WrapBlock(blockType, body).value;
            && |s| % 4 == 0 && |body| + 12 <= |s| < |body| + 16
            && Field(Little, s, 0, 4) == blockType
            && Field(Little, s, 4, 4) == |s| && Field(Little, s, |s| - 4, 4) == |s|
            && s[8..8 + |body|] == body && forall k :: 8 + |body| <= k < |s| - 4 ==> s[k] == 0
  {
    hide LE, UnLE, UnBE, Field;
    Widths();
    var s := WrapBlock(blockType, body).value;
    assert s[0..4] == LE(blockType, 4) && s[4..8] == LE(|s|, 4) && s[|s| - 4..|s|] == LE(|s|, 4);
    FieldPacked(s, 0, 4, blockType);
    FieldPacked(s, 4, 4, |s|);
    FieldPacked(s, |s| - 4, 4, |s|);
  }

  /** The section header is of version 1.0 and of unspecified length; an interface has a snap length of 2^18. */
  lemma HeaderFields(linkType: int)
    requires BuildShb().Success? && BuildIdb(linkType).Success?
    ensures var shb, idb := BuildShb().value, BuildIdb(linkType).value;
            && |shb| == 28 && Field(Little, shb, 12, 2) == 1 && Field(Little, shb, 14, 2) == 0
            && Field(Little, shb, 16, 8) == 0x1_0000_0000_0000_0000 - 1
            && |idb| == 20 && Field(Little, idb, 8, 2) == linkType && Field(Little, idb, 10, 2) == 0
            && Field(Little, idb, 12, 4) == 0x4_0000
  {
    hide LE, UnLE, UnBE, Field;
    Widths();
    var shb, idb := BuildShb().value, BuildIdb(linkType).value;
    assert shb[12..14] == LE(1, 2) && shb[14..16] == LE(0, 2) && shb[16..24] == LE(0xFFFF_FFFF_FFFF_FFFF, 8);
    FieldPacked(shb, 12, 2, 1);
    FieldPacked(shb, 14, 2, 0);
    FieldPacked(shb, 16, 8, 0xFFFF_FFFF_FFFF_FFFF);
    assert idb[8..10] == LE(linkType, 2) && idb[10..12] == LE(0, 2) && idb[12..16] == LE(262144, 4);
    FieldPacked(idb, 8, 2, linkType);
    FieldPacked(idb, 10, 2, 0);
    FieldPacked(idb, 12, 4, 262144);
  }

  /** The types of the blocks written. */
  lemma WrittenTypes(linkType: int, ifaceId: nat, p: PcapPacket)
    requires BuildShb().Success? && BuildIdb(linkType).Success? && BuildEpb(ifaceId, p).Success?
    ensures Field(Little, BuildShb().value, 0, 4) == 0x0A0D0D0A
    ensures Field(Little, BuildIdb(linkType).value, 0, 4) == 1
    ensures Field(Little, BuildEpb(ifaceId, p).value, 0, 4) == 6
    ensures BuildShb().value[8..12] == [0x4D, 0x3C, 0x2B, 0x1A]
  {
    hide LE, Field, WordsLE, Ticks;
    var shb, idb, epb := BuildShb().value, BuildIdb(linkType).value, BuildEpb(ifaceId, p).value;
    assert shb[0..4] == LE(0x0A0D0D0A, 4) && idb[0..4] == LE(1, 4) && epb[0..4] == LE(6, 4);
    Widths();
    FieldPacked(shb, 0, 4, 0x0A0D0D0A);
    FieldPacked(idb, 0, 4, 1);
    FieldPacked(epb, 0, 4, 6);
  }

  /** A written block is taken whole, and its padded body has its effect. */
  lemma WrappedStep(blockType: nat, body: bytes, rest: bytes, section: GoodSection, strict: bool)
    requires blockType < 0x1_0000_0000 && WrapBlock(blockType, body).Success?
    requires section.order == Some(Little) && LE(blockType, 4) != SHB_MAGIC
    ensures var s := WrapBlock(blockType, body).value;
            var effect := Effect(blockType, body + Zeros(Pad4(|body|)), section);
            |s| >= MIN_BLOCK_SIZE
            && (effect.Success? ==>
                NextStep(s + rest, section, strict) == Take(|s|, effect.value.0, effect.value.1))
  {
    hide LE, UnLE, UnBE, Effect, Field;
    var padded := body + Zeros(Pad4(|body|));
    var total := 12 + |padded|;
    var s := LE(blockType, 4) + LE(total, 4) + padded + LE(total, 4);
    var data := s + rest;
    assert data[0..4] == LE(blockType, 4) && data[4..8] == LE(total, 4);
    Widths();
    FieldPacked(data, 0, 4, blockType);
    FieldPacked(data, 4, 4, total);
    assert data[8..total - 4] == padded;
  }

  lemma MagicBytes()
    ensures LE(SHB_TYPE, 4) == SHB_MAGIC
  {
    assert LE(0x0A0D0D, 3) == [0x0D, 0x0D, 0x0A];
  }

  lemma ShbStep(rest: bytes, section: GoodSection, strict: bool)
    ensures var s := BuildShb().value;
            |s| == 28 && NextStep(s + rest, section, strict) == Take(|s|, Section(Some(Little), []), None)
  {
    hide LE, UnLE, UnBE, Field;
    MagicBytes();
    var body := BOM_LITTLE_ENDIAN + LE(1, 2) + LE(0, 2) + LE(0xFFFF_FFFF_FFFF_FFFF, 8);
    assert body + Zeros(Pad4(|body|)) == body;
    var s := BuildShb().value;
    var data := s + rest;
    assert data[0..4] == SHB_MAGIC && data[4..8] == LE(28, 4) && data[8..12] == BOM_LITTLE_ENDIAN;
    Widths();
    FieldPacked(data, 0, 4, SHB_TYPE);
    FieldPacked(data, 4, 4, 28);
  }

  lemma NotMagic(blockType: nat)
    requires blockType < 0x100
    ensures LE(blockType, 4) != SHB_MAGIC
  {
    assert LE(blockType, 4)[1] == LE(blockType / 0x100, 3)[0];
  }

  lemma IdbStep(linkType: int, rest: bytes, section: GoodSection, strict: bool)
    requires BuildIdb(linkType).Success? && section.order == Some(Little)
    ensures var s := BuildIdb(linkType).value;
            var iface := Interface(linkType, DEFAULT_TS_RESOL);
            s != [] && NextStep(s + rest, section, strict)
            == Take(|s|, section.(interfaces := section.interfaces + [iface]), None)
  {
    var body := LE(linkType, 2) + LE(0, 2) + LE(262144, 4);
    NotMagic(W.IDB_TYPE);
    WrappedStep(W.IDB_TYPE, body, rest, section, strict);
    assert body + Zeros(Pad4(|body|)) == body;
    hide LE, UnLE, NextStep;
    assert body[0..2] == LE(linkType, 2) && body[8..] == [];
    Widths();
    FieldPacked(body, 0, 2, linkType);
  }

  /** What a packet reads back as: its timestamp on the microsecond grid, modulo 2^64 ticks. */
  function OnGrid(p: PcapPacket): PcapPacket {
    p.(timestamp := (Ticks(p) % 0x1_0000_0000_0000_0000) as real / 1_000_000.0, capturedLength := |p.data|)
  }

  lemma TicksSplit(t: int)
    ensures (t / 0x1_0000_0000 % 0x1_0000_0000) * 0x1_0000_0000 + t % 0x1_0000_0000
            == t % 0x1_0000_0000_0000_0000
  {
  }

  lemma EpbBody(ifaceId: nat, p: PcapPacket, filler: bytes, interfaces: seq<Interface>)
    requires Fits32(ifaceId) && Fits32(|p.data|) && Fits32(p.originalLength)
    requires ifaceId < |interfaces| && p.linkType >= 0 && interfaces[ifaceId] == Interface(p.linkType, DEFAULT_TS_RESOL)
    requires Usable(interfaces)
    ensures var tsHigh, tsLow := Ticks(p) / 0x1_0000_0000 % 0x1_0000_0000, Ticks(p) % 0x1_0000_0000;
            var body := WordsLE([ifaceId, tsHigh, tsLow, |p.data|, p.originalLength]) + p.data + filler;
            Epb(body, Little, interfaces) == Success(OnGrid(p))
  {
    hide WordsLE, Field, Ticks;
    var tsHigh, tsLow := Ticks(p) / 0x1_0000_0000 % 0x1_0000_0000, Ticks(p) % 0x1_0000_0000;
    var ns := [ifaceId, tsHigh, tsLow, |p.data|, p.originalLength];
    var body := WordsLE(ns) + p.data + filler;
    assert body == WordsLE(ns) + (p.data + filler);
    WordAtLE(ns, p.data + filler, 0);
    WordAtLE(ns, p.data + filler, 1);
    WordAtLE(ns, p.data + filler, 2);
    WordAtLE(ns, p.data + filler, 3);
    WordAtLE(ns, p.data + filler, 4);
    assert body[20..20 + |p.data|] == p.data;
    TicksSplit(Ticks(p));
  }

  lemma EpbStep(ifaceId: nat, p: PcapPacket, rest: bytes, section: GoodSection, strict: bool)
    requires BuildEpb(ifaceId, p).Success? && section.order == Some(Little)
    requires ifaceId < |section.interfaces|
    requires p.linkType >= 0 && section.interfaces[ifaceId] == Interface(p.linkType, DEFAULT_TS_RESOL)
    ensures var s := BuildEpb(ifaceId, p).value;
            s != [] && NextStep(s + rest, section, strict) == Take(|s|, section, Some(OnGrid(p)))
  {
    var tsHigh, tsLow := Ticks(p) / 0x1_0000_0000 % 0x1_0000_0000, Ticks(p) % 0x1_0000_0000;
    NotMagic(W.EPB_TYPE);
    hide LE, WordsLE, NextStep, Epb, Ticks;
    var body := WordsLE([ifaceId, tsHigh, tsLow, |p.data|, p.originalLength]) + p.data;
    EpbBody(ifaceId, p, Zeros(Pad4(|body|)), section.interfaces);
    WrappedStep(W.EPB_TYPE, body, rest, section, strict);
  }

  // ---------------------------------------------------------------- the file

  /** A block taken from the front comes before the packets of the rest, read in the section it leaves. */
  lemma PacketsFront(head: bytes, rest: bytes, before: GoodSection, after: GoodSection,
                     packet: Option<PcapPacket>, strict: bool)
    requires head != [] && NextStep(head + rest, before, strict) == Take(|head|, after, packet)
    ensures Packets(head + rest, before, strict) == Packets(rest, after, strict).After(OptionToSeq(packet))
  {
    hide NextStep;
    assert (head + rest)[|head|..] == rest;
  }

  /** The reader's interface list after the descriptions the writer puts first. */
  function Interfaces(types: seq<int>): seq<Interface>
    requires forall i :: 0 <= i < |types| ==> types[i] >= 0
  {
    if types == [] then [] else [Interface(types[0], DEFAULT_TS_RESOL)] + Interfaces(types[1..])
  }

  lemma {:induction false} InterfacesAt(types: seq<int>)
    requires forall i :: 0 <= i < |types| ==> types[i] >= 0
    ensures |Interfaces(types)| == |types|
    ensures forall i :: 0 <= i < |types| ==> Interfaces(types)[i] == Interface(types[i], DEFAULT_TS_RESOL)
  {
    if types != [] { InterfacesAt(types[1..]); }
  }

  lemma {:induction false} IdbsRoundTrip(types: seq<int>, rest: bytes, section: GoodSection, strict: bool)
    requires Idbs(types).Success? && section.order == Some(Little)
    ensures forall i :: 0 <= i < |types| ==> types[i] >= 0
    ensures Usable(section.interfaces + Interfaces(types))
    ensures Packets(Idbs(types).value + rest, section, strict)
            == Packets(rest, section.(interfaces := section.interfaces + Interfaces(types)), strict)
  {
    hide BuildIdb, NextStep, Packets;
    if types == [] {
      assert [] + rest == rest && section.interfaces + [] == section.interfaces;
    } else {
      var head, tail := BuildIdb(types[0]).value, Idbs(types[1..]).value;
      assert types[0] >= 0 by { IdbFits(types[0]); }
      var iface := Interface(types[0], DEFAULT_TS_RESOL);
      var after := section.(interfaces := section.interfaces + [iface]);
      assert (head + tail) + rest == head + (tail + rest);
      IdbStep(types[0], tail + rest, section, strict);
      PacketsFront(head, tail + rest, section, after, None, strict);
      IdbsRoundTrip(types[1..], rest, after, strict);
      Packets(tail + rest, after, strict).AfterNothing();
      assert forall i :: 0 < i < |types| ==> types[i] == types[1..][i - 1];
      Append(section.interfaces, iface, Interfaces(types[1..]));
    }
  }

  lemma IdbFits(t: int)
    requires BuildIdb(t).Success?
    ensures Fits16(t)
  {
  }

  function AllOnGrid(ps: seq<PcapPacket>): (qs: seq<PcapPacket>)
    ensures |qs| == |ps| && forall i :: 0 <= i < |ps| ==> qs[i] == OnGrid(ps[i])
  {
    if ps == [] then [] else [OnGrid(ps[0])] + AllOnGrid(ps[1..])
  }

  lemma {:induction false} EpbsRoundTrip(ps: seq<PcapPacket>, types: seq<int>, section: GoodSection, strict: bool)
    requires forall i :: 0 <= i < |ps| ==> ps[i].linkType in types
    requires forall i :: 0 <= i < |types| ==> types[i] >= 0
    requires Epbs(ps, types).Success?
    requires section == Section(Some(Little), Interfaces(types))
    ensures Packets(Epbs(ps, types).value, section, strict) == Run(AllOnGrid(ps), None)
  {
    if ps != [] {
      hide BuildEpb, NextStep, Packets, OnGrid, Interfaces;
      var id := IndexOf(types, ps[0].linkType);
      var head, tail := BuildEpb(id, ps[0]).value, Epbs(ps[1..], types).value;
      InterfacesAt(types);
      EpbStep(id, ps[0], tail, section, strict);
      PacketsFront(head, tail, section, section, Some(OnGrid(ps[0])), strict);
      EpbsRoundTrip(ps[1..], types, section, strict);
    }
  }

  /**
   * The round trip. Every file the writer produces reads back, in either mode and without complaint, as
   * the packets written in order, whatever their mix of link types; only timestamps move, to the grid.
   */
  lemma WriteReadRoundTrip(ps: seq<PcapPacket>, strict: bool)
    requires Write(ps).Success?
    ensures R.Read(Write(ps).value, strict) == Run(AllOnGrid(ps), None)
  {
    hide BuildShb, NextStep, Packets, Interfaces, OnGrid;
    var types := LinkTypes(ps);
    var shb, idbs, epbs := BuildShb().value, Idbs(types).value, Epbs(ps, types).value;
    var empty: GoodSection := Section(Some(Little), []);
    assert shb + idbs + epbs == shb + (idbs + epbs);
    ShbStep(idbs + epbs, OUTSIDE, strict);
    PacketsFront(shb, idbs + epbs, OUTSIDE, empty, None, strict);
    Packets(idbs + epbs, empty, strict).AfterNothing();
    IdbsRoundTrip(types, epbs, empty, strict);
    assert [] + Interfaces(types) == Interfaces(types);
    EpbsRoundTrip(ps, types, Section(Some(Little), Interfaces(types)), strict);
  }

  /** A packet comes back unchanged exactly when its length is its data's and its timestamp is on the grid. */
  lemma RoundTripExact(p: PcapPacket)
    ensures OnGrid(p) == p <==>
      p.capturedLength == |p.data| && 0 <= Ticks(p) < 0x1_0000_0000_0000_0000
      && p.timestamp * 1_000_000.0 == Ticks(p) as real
  {
    var t := Ticks(p) % 0x1_0000_0000_0000_0000;
    if p.timestamp == t as real / 1_000_000.0 {
      assert p.timestamp * 1_000_000.0 == t as real;
      RoundOfInteger(t);
    }
  }

  // ---------------------------------------------------------------- concatenation

  /** What the strict reader takes depends neither on the bytes that follow nor on the mode. */
  lemma StepIsLocal(a: bytes, b: bytes, section: GoodSection, strict: bool)
    requires NextStep(a, section, true).Take?
    ensures NextStep(a + b, section, strict) == NextStep(a, section, true)
  {
    hide UnBE, UnLE, Effect;
    var size := NextStep(a, section, true).size;
    assert (a + b)[0..4] == a[0..4] && (a + b)[4..8] == a[4..8] && (a + b)[8..12] == a[8..12];
    assert (a + b)[8..size - 4] == a[8..size - 4];
  }

  /** A section header makes the reader forget the section it was in. */
  lemma SectionStartsAfresh(b: bytes, s: GoodSection, t: GoodSection, strict: bool)
    requires StartsSection(b)
    ensures Packets(b, s, strict) == Packets(b, t, strict)
  {
    hide Field, Effect;
    assert Enter(b, s) == Enter(b, t);
  }

  lemma {:induction false} PacketsConcat(a: bytes, b: bytes, s: GoodSection, t: GoodSection, strict: bool)
    requires Packets(a, s, true).error.None? && StartsSection(b)
    ensures Packets(a + b, s, strict) == Packets(b, t, strict).After(Packets(a, s, true).items)
    decreases |a|
  {
    hide NextStep, StartsSection;
    if a == [] {
      assert a + b == b;
      SectionStartsAfresh(b, s, t, strict);
      Packets(b, t, strict).AfterNothing();
    } else {
      var step := NextStep(a, s, true);
      StepIsLocal(a, b, s, strict);
      assert (a + b)[step.size..] == a[step.size..] + b;
      PacketsConcat(a[step.size..], b, step.section, t, strict);
      Packets(b, t, strict).AfterTwice(OptionToSeq(step.packet), Packets(a[step.size..], step.section, true).items);
    }
  }

  /** A file read without complaint begins with a section header. */
  lemma AcceptedStartsSection(data: bytes)
    requires R.Read(data, true).error.None?
    ensures StartsSection(data)
  {
    hide Field, Effect;
  }

  /**
   * Concatenation. Reading a strictly accepted file and another one behind it yields the packets of the
   * first and then exactly what the second yields by itself, whatever their byte orders.
   */
  lemma ReadConcat(a: bytes, b: bytes, strict: bool)
    requires R.Read(a, true).error.None? && StartsSection(b)
    ensures R.Read(a + b, strict) == R.Read(b, strict).After(R.Read(a, true).items)
  {
    hide NextStep, Packets;
    PacketsConcat(a, b, OUTSIDE, OUTSIDE, strict);
  }

  /** Two strictly accepted files, one behind the other, are a strictly accepted file of both files' packets. */
  lemma FilesConcat(a: bytes, b: bytes, strict: bool)
    requires R.Read(a, true).error.None? && R.Read(b, true).error.None?
    ensures R.Read(a + b, strict) == Run(R.Read(a, true).items + R.Read(b, true).items, None)
  {
    hide R.Read;
    AcceptedStartsSection(b);
    ReadConcat(a, b, strict);
    LenientYieldsMore(b);
  }

  // ---------------------------------------------------------------- lenient and strict

  /** Lenient reading yields what strict reading yields before it stops or raises, and possibly more. */
  lemma {:induction false} LenientRefinesStrict(data: bytes, section: GoodSection)
    ensures Packets(data, section, true).items <= Packets(data, section, false).items
    ensures Packets(data, section, true).error.None? ==>
      Packets(data, section, false) == Packets(data, section, true)
    decreases |data|
  {
    hide NextStep;
    if data != [] && NextStep(data, section, true).Take? {
      var step := NextStep(data, section, true);
      StepIsLocal(data, [], section, false);
      assert data + [] == data;
      LenientRefinesStrict(data[step.size..], step.section);
    }
  }

  lemma LenientYieldsMore(data: bytes)
    ensures R.Read(data, true).items <= R.Read(data, false).items
    ensures R.Read(data, true).error.None? ==> R.Read(data, false) == R.Read(data, true)
  {
    hide Packets;
    LenientRefinesStrict(data, OUTSIDE);
  }

  // ---------------------------------------------------------------- the interface table

  predicate Uses(ps: seq<PcapPacket>, t: int) {
    exists i :: 0 <= i < |ps| && ps[i].linkType == t
  }

  /** The first packet with link type `t`. */
  function FirstUse(ps: seq<PcapPacket>, t: int): (i: nat)
    requires Uses(ps, t)
    ensures i < |ps| && ps[i].linkType == t && forall k :: 0 <= k < i ==> ps[k].linkType != t
  {
    if ps[0].linkType == t then 0 else
      assert forall i :: 0 < i < |ps| ==> ps[i] == ps[1..][i - 1];
      1 + FirstUse(ps[1..], t)
  }

  ghost predicate InFirstUseOrder(ps: seq<PcapPacket>, types: seq<int>) {
    forall a, b :: 0 <= a < b < |types| ==>
      Uses(ps, types[a]) && Uses(ps, types[b]) && FirstUse(ps, types[a]) < FirstUse(ps, types[b])
  }

  lemma FirstUseInit(ps: seq<PcapPacket>, t: int)
    requires ps != [] && Uses(ps[..|ps| - 1], t)
    ensures Uses(ps, t) && FirstUse(ps, t) == FirstUse(ps[..|ps| - 1], t)
  {
    var init := ps[..|ps| - 1];
    var i := FirstUse(init, t);
    assert ps[i] == init[i];
    assert Uses(ps, t);
    var j := FirstUse(ps, t);
    assert forall k :: 0 <= k < |init| ==> init[k] == ps[k];
  }

  /**
   * The interface table lists each link type once, in the order of first appearance; and the reader's
   * list has, at the number every packet is written with, that packet's link type.
   */
  lemma InterfaceTable(ps: seq<PcapPacket>)
    ensures forall t :: t in LinkTypes(ps) <==> Uses(ps, t)
    ensures InFirstUseOrder(ps, LinkTypes(ps))
    ensures (forall i :: 0 <= i < |ps| ==> ps[i].linkType >= 0) ==>
      var types := LinkTypes(ps);
      (forall k :: 0 <= k < |types| ==> types[k] >= 0)
      && |Interfaces(types)| == |types|
      && forall i :: 0 <= i < |ps| ==> Interfaces(types)[IndexOf(types, ps[i].linkType)].linkType == ps[i].linkType
  {
    hide Uses, FirstUse, InFirstUseOrder;
    TableInOrder(ps);
    TypesAreUsed(ps);
    if forall i :: 0 <= i < |ps| ==> ps[i].linkType >= 0 {
      var types := LinkTypes(ps);
      forall k | 0 <= k < |types| ensures types[k] >= 0 { assert types[k] in types; }
      InterfacesAt(types);
    }
  }

  lemma TypesAreUsed(ps: seq<PcapPacket>)
    ensures forall t :: t in LinkTypes(ps) <==> Uses(ps, t)
  {
  }

  /** Two types used before the last packet, or one of them and a type new with it, keep their order. */
  lemma PairInOrder(ps: seq<PcapPacket>, x: int, y: int)
    requires ps != [] && Uses(ps[..|ps| - 1], x)
    requires if Uses(ps[..|ps| - 1], y) then FirstUse(ps[..|ps| - 1], x) < FirstUse(ps[..|ps| - 1], y)
             else y == ps[|ps| - 1].linkType
    ensures Uses(ps, x) && Uses(ps, y) && FirstUse(ps, x) < FirstUse(ps, y)
  {
    var init := ps[..|ps| - 1];
    FirstUseInit(ps, x);
    if Uses(init, y) { FirstUseInit(ps, y); } else { NewTypeIsLast(ps); }
  }

  lemma {:induction false} TableInOrder(ps: seq<PcapPacket>)
    ensures InFirstUseOrder(ps, LinkTypes(ps))
  {
    if ps != [] {
      var init, types := ps[..|ps| - 1], LinkTypes(ps);
      var before := LinkTypes(init);
      TableInOrder(init);
      TypesAreUsed(init);
      assert types == if ps[|ps| - 1].linkType in before then before else before + [ps[|ps| - 1].linkType];
      hide FirstUse, Uses, LinkTypes;
      forall a, b | 0 <= a < b < |types|
        ensures Uses(ps, types[a]) && Uses(ps, types[b]) && FirstUse(ps, types[a]) < FirstUse(ps, types[b])
      {
        assert before[a] in before;
        if b < |before| { assert before[b] in before; }
        PairInOrder(ps, types[a], types[b]);
      }
    }
  }

  lemma NewTypeIsLast(ps: seq<PcapPacket>)
    requires ps != [] && !Uses(ps[..|ps| - 1], ps[|ps| - 1].linkType)
    ensures Uses(ps, ps[|ps| - 1].linkType) && FirstUse(ps, ps[|ps| - 1].linkType) == |ps| - 1
  {
    var i := FirstUse(ps, ps[|ps| - 1].linkType);
    assert forall k :: 0 <= k < |ps| - 1 ==> ps[..|ps| - 1][k] == ps[k];
  }

  // ---------------------------------------------------------------- what can be written

  /** The 16-bit numbers below `n`. */
  function Below(n: nat): (r: set<u16>)
    requires n <= 0x1_0000
    ensures forall x: u16 :: x in r <==> x < n
    ensures |r| == n
  {
    if n == 0 then {} else Below(n - 1) + {n - 1}
  }

  function Members(types: seq<int>): set<u16> {
    set x: u16 | x in types
  }

  lemma {:induction false} MembersSize(types: seq<int>)
    requires forall i, j :: 0 <= i < j < |types| ==> types[i] != types[j]
    requires forall i :: 0 <= i < |types| ==> Fits16(types[i])
    ensures |Members(types)| == |types|
  {
    if types != [] {
      var init, last: u16 := types[..|types| - 1], types[|types| - 1];
      MembersSize(init);
      assert Members(types) == Members(init) + {last};
    }
  }

  /** Distinct 16-bit link types never run out of 32-bit interface numbers. */
  lemma FewInterfaces(types: seq<int>)
    requires forall i, j :: 0 <= i < j < |types| ==> types[i] != types[j]
    requires forall i :: 0 <= i < |types| ==> Fits16(types[i])
    ensures |types| <= 0x1_0000
  {
    MembersSize(types);
    assert Members(types) <= Below(0x1_0000);
    SubsetSize(Members(types), Below(0x1_0000));
  }

  lemma {:induction false} SubsetSize(a: set<u16>, b: set<u16>)
    requires a <= b
    ensures |a| <= |b|
  {
    assert b == a + (b - a);
  }

  predicate Writable(p: PcapPacket) {
    Fits16(p.linkType) && Fits32(p.originalLength) && Fits32(32 + |p.data| + Pad4(|p.data|))
  }

  lemma {:induction false} IdbsOutcome(types: seq<int>)
    ensures Idbs(types).Success? <==> forall i :: 0 <= i < |types| ==> Fits16(types[i])
  {
    if types != [] {
      IdbsOutcome(types[1..]);
      assert forall i :: 0 < i < |types| ==> types[i] == types[1..][i - 1];
    }
  }

  lemma EpbOutcome(ifaceId: nat, p: PcapPacket)
    requires Fits32(ifaceId) && Fits16(p.linkType)
    ensures BuildEpb(ifaceId, p).Success? <==> Writable(p)
  {
    hide LE, WordsLE;
    assert Pad4(20 + |p.data|) == Pad4(|p.data|);
  }

  lemma {:induction false} EpbsOutcome(ps: seq<PcapPacket>, types: seq<int>)
    requires forall i :: 0 <= i < |ps| ==> ps[i].linkType in types
    requires |types| <= 0x1_0000 && forall i :: 0 <= i < |types| ==> Fits16(types[i])
    ensures Epbs(ps, types).Success? <==> forall i :: 0 <= i < |ps| ==> Writable(ps[i])
  {
    if ps != [] {
      hide BuildEpb, Writable;
      EpbsOutcome(ps[1..], types);
      EpbOutcome(IndexOf(types, ps[0].linkType), ps[0]);
      assert forall i :: 0 < i < |ps| ==> ps[i] == ps[1..][i - 1];
    }
  }

  /** The writer raises exactly when some packet has a field or a block too large for its field. */
  lemma WriteOutcome(ps: seq<PcapPacket>)
    ensures Write(ps).Success? <==> forall i :: 0 <= i < |ps| ==> Writable(ps[i])
  {
    hide Idbs, Epbs, LE;
    var types := LinkTypes(ps);
    IdbsOutcome(types);
    if forall i :: 0 <= i < |types| ==> Fits16(types[i]) {
      FewInterfaces(types);
      EpbsOutcome(ps, types);
    } else {
      var i :| 0 <= i < |types| && !Fits16(types[i]);
      assert types[i] in types;
      var j :| 0 <= j < |ps| && ps[j].linkType == types[i];
      assert !Writable(ps[j]);
    }
  }
}
