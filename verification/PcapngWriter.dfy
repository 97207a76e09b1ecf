/** The pcapng writer (src/rtpkit/io/pcapng_writer.py). */
module PcapngWriter {
  import opened Bytes
  import opened Wrappers
  import opened Capture
  import PcapngReader

  const SHB_TYPE := 0x0A0D0D0A
  const IDB_TYPE := 1
  const EPB_TYPE := 6

  type Wire = Result<bytes, CaptureError>

  /** A block: its type, its length, the padded body and its length again. */
  function WrapBlock(blockType: nat, body: bytes): Wire {
    var padded := body + Zeros(Pad4(|body|));
    var total := 8 + |padded| + 4;
    if !Fits32(total) then Failure(StructError)
    else Success(LE(blockType, 4) + LE(total, 4) + padded + LE(total, 4))
  }

  /** The section length field holds -1, unspecified, as a signed 64-bit number. */
  function BuildShb(): Wire {
    WrapBlock(SHB_TYPE, PcapngReader.BOM_LITTLE_ENDIAN + LE(1, 2) + LE(0, 2) + LE(0xFFFF_FFFF_FFFF_FFFF, 8))
  }

  function BuildIdb(linkType: int): Wire {
    if !Fits16(linkType) then Failure(StructError)
    else WrapBlock(IDB_TYPE, LE(linkType, 2) + LE(0, 2) + LE(262144, 4))
  }

  /** The microsecond tick nearest to the packet's timestamp. */
  function Ticks(p: PcapPacket): int {
    Round(p.timestamp * 1_000_000.0)
  }

  function BuildEpb(ifaceId: nat, p: PcapPacket): Wire {
    var tsHigh, tsLow := Ticks(p) / 0x1_0000_0000 % 0x1_0000_0000, Ticks(p) % 0x1_0000_0000;
    if !Fits32(ifaceId) || !Fits32(|p.data|) || !Fits32(p.originalLength) then Failure(StructError)
    else WrapBlock(EPB_TYPE, WordsLE([ifaceId, tsHigh, tsLow, |p.data|, p.originalLength]) + p.data)
  }

  // ---------------------------------------------------------------- the interface table

  /** The distinct link types, in the order they first appear. */
  function LinkTypes(ps: seq<PcapPacket>): (types: seq<int>)
    ensures forall i :: 0 <= i < |ps| ==> ps[i].linkType in types
    ensures forall t :: t in types ==> exists i :: 0 <= i < |ps| && ps[i].linkType == t
    ensures forall i, j :: 0 <= i < j < |types| ==> types[i] != types[j]
  {
    if ps == [] then [] else
      var before, t := LinkTypes(ps[..|ps| - 1]), ps[|ps| - 1].linkType;
      assert forall i :: 0 <= i < |ps| - 1 ==> ps[..|ps| - 1][i] == ps[i];
      if t in before then before else before + [t]
  }

  /** The position of `t` among distinct `types`. */
  function IndexOf(types: seq<int>, t: int): (i: nat)
    requires t in types
    ensures i < |types| && types[i] == t
  {
    if types[0] == t then 0 else 1 + IndexOf(types[1..], t)
  }

  // ---------------------------------------------------------------- the file

  function Idbs(types: seq<int>): Wire {
    if types == [] then Success([]) else
      var head :- BuildIdb(types[0]);
      var tail :- Idbs(types[1..]);
      Success(head + tail)
  }

  function Epbs(ps: seq<PcapPacket>, types: seq<int>): Wire
    requires forall i :: 0 <= i < |ps| ==> ps[i].linkType in types
  {
    if ps == [] then Success([]) else
      var head :- BuildEpb(IndexOf(types, ps[0].linkType), ps[0]);
      var tail :- Epbs(ps[1..], types);
      Success(head + tail)
  }

  /** What `write_pcapng` returns or raises. */
  function Write(ps: seq<PcapPacket>): Wire {
    var types := LinkTypes(ps);
    var shb :- BuildShb();
    var idbs :- Idbs(types);
    var epbs :- Epbs(ps, types);
    Success(shb + idbs + epbs)
  }

  /** Put `head` in front of what the rest of a join gives. */
  ghost function Prepend(head: bytes, tail: Wire): Wire {
    if tail.Failure? then tail else Success(head + tail.value)
  }

  lemma IdbsStep(file: bytes, types: seq<int>, i: nat)
    requires i < |types|
    ensures BuildIdb(types[i]).Failure? ==> Prepend(file, Idbs(types[i..])) == Failure(BuildIdb(types[i]).error)
    ensures BuildIdb(types[i]).Success? ==>
      Prepend(file, Idbs(types[i..])) == Prepend(file + BuildIdb(types[i]).value, Idbs(types[i + 1..]))
  {
    hide BuildIdb;
    assert types[i..][1..] == types[i + 1..];
    if BuildIdb(types[i]).Success? && Idbs(types[i + 1..]).Success? {
      Associate(file, BuildIdb(types[i]).value, Idbs(types[i + 1..]).value);
    }
  }

  lemma EpbsStep(file: bytes, ps: seq<PcapPacket>, types: seq<int>, i: nat)
    requires forall i :: 0 <= i < |ps| ==> ps[i].linkType in types
    requires i < |ps|
    ensures var part := BuildEpb(IndexOf(types, ps[i].linkType), ps[i]);
            && (part.Failure? ==> Prepend(file, Epbs(ps[i..], types)) == Failure(part.error))
            && (part.Success? ==>
                Prepend(file, Epbs(ps[i..], types)) == Prepend(file + part.value, Epbs(ps[i + 1..], types)))
  {
    hide BuildEpb;
    assert ps[i..][1..] == ps[i + 1..];
    var part := BuildEpb(IndexOf(types, ps[i].linkType), ps[i]);
    if part.Success? && Epbs(ps[i + 1..], types).Success? {
      Associate(file, part.value, Epbs(ps[i + 1..], types).value);
    }
  }

  lemma Associate(a: bytes, b: bytes, c: bytes)
    ensures (a + b) + c == a + (b + c)
  {
  }

  lemma NothingLeft(file: bytes, types: seq<int>)
    ensures Prepend(file, Idbs([])) == Success(file)
    ensures Prepend(file, Epbs([], types)) == Success(file)
  {
    assert file + [] == file;
  }

  lemma LinkTypesStep(ps: seq<PcapPacket>, i: nat)
    requires i < |ps|
    ensures LinkTypes(ps[..i + 1])
            == if ps[i].linkType in LinkTypes(ps[..i]) then LinkTypes(ps[..i])
               else LinkTypes(ps[..i]) + [ps[i].linkType]
  {
    assert ps[..i + 1][..i] == ps[..i];
  }

  /** The interface table: each link type's number is its place in first-appearance order. */
  method BuildTable(ps: seq<PcapPacket>) returns (interfaces: map<int, nat>, order: seq<int>)
    ensures order == LinkTypes(ps)
    ensures forall t: int :: t in interfaces <==> t in order
    ensures forall t: int | t in interfaces :: t in order && interfaces[t] == IndexOf(order, t)
  {
    hide LinkTypes, IndexOf;
    interfaces, order := map[], LinkTypes([]);
    assert order == [] by { NoLinkTypes(); }
    assert ps[..0] == [];
    for i := 0 to |ps|
      invariant order == LinkTypes(ps[..i])
      invariant forall t: int :: t in interfaces <==> t in order
      invariant forall k :: 0 <= k < |order| ==> order[k] in interfaces && interfaces[order[k]] == k
    {
      LinkTypesStep(ps, i);
      var t := ps[i].linkType;
      if t !in interfaces {
        interfaces := interfaces[t := |order|];
        order := order + [t];
      }
    }
    assert ps[..|ps|] == ps;
    forall t: int | t in interfaces ensures interfaces[t] == IndexOf(order, t) {
    }
  }

  lemma NoLinkTypes()
    ensures LinkTypes([]) == []
  {
  }

  method WritePcapng(ps: seq<PcapPacket>) returns (r: Wire)
    ensures r == Write(ps)
  {
    hide BuildShb, BuildIdb, BuildEpb, LinkTypes, IndexOf, Idbs, Epbs;
    var interfaces, order := BuildTable(ps);
    var file :- BuildShb();
    ghost var shb := file;
    assert order[0..] == order;
    for i := 0 to |order|
      invariant Prepend(shb, Idbs(order)) == Prepend(file, Idbs(order[i..]))
    {
      IdbsStep(file, order, i);
      var part :- BuildIdb(order[i]);
      file := file + part;
    }
    assert order[|order|..] == [];
    NothingLeft(file, order);
    ghost var head := file;
    assert ps[0..] == ps;
    for i := 0 to |ps|
      invariant Prepend(head, Epbs(ps, order)) == Prepend(file, Epbs(ps[i..], order))
    {
      EpbsStep(file, ps, order, i);
      var part :- BuildEpb(interfaces[ps[i].linkType], ps[i]);
      file := file + part;
    }
    assert ps[|ps|..] == [];
    NothingLeft(file, order);
    return Success(file);
  }
}
