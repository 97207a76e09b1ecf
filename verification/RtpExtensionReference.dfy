/**
 * What header extension bodies hold, said without parsing (sections 4.2 and 4.3 of RFC 8285): a body is laid
 * out as elements between runs of zeros, up to something that stops the reading. Every body has such a
 * layout, and its elements are what the parser returns.
 */
module RtpExtensionReference {
  import opened Bytes
  import opened RtpModel
  import opened RtpExtension

  // ---------------------------------------------------------------- layouts

  /** An element and the run of zeros in front of it. */
  datatype Placed = Placed(zeros: nat, element: Element)

  /**
   * What stops the reading: the body's end; the reserved id 15, with anything behind it; an element that
   * claims more bytes than are left; or, in the two-byte format, an id without a length.
   */
  datatype Ending =
    | BodyEnd
    | Reserved(low: nat, behind: bytes)
    | Overrun(id: nat, length: nat, behind: bytes)
    | LoneId(id: nat)

  datatype Layout = Layout(placed: seq<Placed>, zeros: nat, ending: Ending)

  /** A head that can stand in a body: not zero, which is padding, and in the one-byte format not reserved. */
  predicate HeadFits(id: int, length: int, profile: Profile) {
    match profile
    case OneByte => 0 <= id <= 14 && 1 <= length <= 16 && !(id == 0 && length == 1)
    case TwoByte => 1 <= id <= 255 && 0 <= length <= 255
    case Unknown => false
  }

  predicate EndingFits(e: Ending, profile: Profile) {
    match e
    case BodyEnd => true
    case Reserved(low, _) => profile.OneByte? && low < 16
    case Overrun(id, length, behind) => HeadFits(id, length, profile) && |behind| < length
    case LoneId(id) => profile.TwoByte? && 1 <= id <= 255
  }

  predicate AllFit(ps: seq<Placed>, profile: Profile) {
    forall i :: 0 <= i < |ps| ==> HeadFits(ps[i].element.id, |ps[i].element.data|, profile)
  }

  predicate LayoutFits(l: Layout, profile: Profile) {
    !profile.Unknown? && AllFit(l.placed, profile) && EndingFits(l.ending, profile)
  }

  function Head(id: int, length: int, profile: Profile): bytes
    requires HeadFits(id, length, profile)
  {
    if profile.OneByte? then [id * 16 + (length - 1)] else [id, length]
  }

  function PrintEnding(e: Ending, profile: Profile): bytes
    requires EndingFits(e, profile)
  {
    match e
    case BodyEnd => []
    case Reserved(low, behind) => [15 * 16 + low] + behind
    case Overrun(id, length, behind) => Head(id, length, profile) + behind
    case LoneId(id) => [id]
  }

  function PrintElement(e: Element, profile: Profile): bytes
    requires HeadFits(e.id, |e.data|, profile)
  {
    Head(e.id, |e.data|, profile) + e.data
  }

  function Print(l: Layout, profile: Profile): bytes
    requires LayoutFits(l, profile)
    decreases |l.placed|
  {
    if l.placed == [] then Zeros(l.zeros) + PrintEnding(l.ending, profile) else
      Zeros(l.placed[0].zeros)
      + (PrintElement(l.placed[0].element, profile) + Print(l.(placed := l.placed[1..]), profile))
  }

  function Listed(ps: seq<Placed>): (es: seq<Element>)
    ensures |es| == |ps| && forall i :: 0 <= i < |es| ==> es[i] == ps[i].element
  {
    if ps == [] then [] else [ps[0].element] + Listed(ps[1..])
  }

  // ---------------------------------------------------------------- a layout is read as its elements

  lemma {:induction false} ZerosAreSkipped(n: nat, s: bytes, profile: Profile)
    ensures ElementsIn(Zeros(n) + s, profile) == ElementsIn(s, profile)
  {
    if n == 0 {
      assert Zeros(0) + s == s;
    } else {
      ZerosAreSkipped(n - 1, s, profile);
      assert (Zeros(n) + s)[1..] == Zeros(n - 1) + s;
    }
  }

  lemma ElementIsRead(e: Element, rest: bytes, profile: Profile)
    requires HeadFits(e.id, |e.data|, profile)
    ensures ElementsIn(PrintElement(e, profile) + rest, profile) == [e] + ElementsIn(rest, profile)
  {
    var s := PrintElement(e, profile) + rest;
    var n := |Head(e.id, |e.data|, profile)|;
    assert s[n..n + |e.data|] == e.data && s[n + |e.data|..] == rest;
  }

  lemma EndingStops(e: Ending, profile: Profile)
    requires !profile.Unknown? && EndingFits(e, profile)
    ensures ElementsIn(PrintEnding(e, profile), profile) == []
  {
  }

  lemma {:induction false} LayoutIsRead(l: Layout, profile: Profile)
    requires LayoutFits(l, profile)
    ensures ElementsIn(Print(l, profile), profile) == Listed(l.placed)
    decreases |l.placed|
  {
    hide ElementsIn, PrintElement, PrintEnding, HeadFits, EndingFits;
    if l.placed == [] {
      ZerosAreSkipped(l.zeros, PrintEnding(l.ending, profile), profile);
      EndingStops(l.ending, profile);
    } else {
      var rest := l.(placed := l.placed[1..]);
      var e := l.placed[0].element;
      ZerosAreSkipped(l.placed[0].zeros, PrintElement(e, profile) + Print(rest, profile), profile);
      ElementIsRead(e, Print(rest, profile), profile);
      LayoutIsRead(rest, profile);
    }
  }

  // ---------------------------------------------------------------- every body has a layout

  /** One more zero in front of a layout. */
  function ZeroFirst(l: Layout): Layout {
    if l.placed == [] then l.(zeros := l.zeros + 1)
    else l.(placed := [l.placed[0].(zeros := l.placed[0].zeros + 1)] + l.placed[1..])
  }

  lemma ZeroFirstPrints(l: Layout, profile: Profile)
    requires LayoutFits(l, profile)
    ensures LayoutFits(ZeroFirst(l), profile) && Print(ZeroFirst(l), profile) == [0] + Print(l, profile)
  {
    hide PrintElement, PrintEnding, HeadFits, EndingFits;
    if l.placed == [] {
      assert Zeros(l.zeros + 1) == [0] + Zeros(l.zeros);
    } else {
      var m := ZeroFirst(l);
      assert m.placed[1..] == l.placed[1..];
      assert Zeros(l.placed[0].zeros + 1) == [0] + Zeros(l.placed[0].zeros);
      assert m.(placed := m.placed[1..]) == l.(placed := l.placed[1..]);
    }
  }

  function ElementFirst(e: Element, l: Layout): Layout {
    l.(placed := [Placed(0, e)] + l.placed)
  }

  lemma ElementFirstPrints(e: Element, l: Layout, profile: Profile)
    requires LayoutFits(l, profile) && HeadFits(e.id, |e.data|, profile)
    ensures LayoutFits(ElementFirst(e, l), profile)
    ensures Print(ElementFirst(e, l), profile) == PrintElement(e, profile) + Print(l, profile)
  {
    hide PrintElement, PrintEnding, HeadFits, EndingFits;
    var m := ElementFirst(e, l);
    assert m.placed[1..] == l.placed && m.(placed := m.placed[1..]) == l;
    assert Zeros(0) == [];
  }

  lemma EndingPrints(e: Ending, profile: Profile)
    requires !profile.Unknown? && EndingFits(e, profile)
    ensures LayoutFits(Layout([], 0, e), profile) && Print(Layout([], 0, e), profile) == PrintEnding(e, profile)
  {
    assert Zeros(0) == [];
  }

  /** The first thing in a body that does not begin with a zero: an element or an ending. */
  lemma FirstThing(s: bytes, profile: Profile) returns (e: Element, ending: Ending, size: nat)
    requires s != [] && s[0] != 0 && !profile.Unknown?
    ensures 0 < size <= |s| ==> HeadFits(e.id, |e.data|, profile) && PrintElement(e, profile) == s[..size]
    ensures size == 0 || size > |s| ==> EndingFits(ending, profile) && PrintEnding(ending, profile) == s
  {
    e, ending, size := Element(0, []), BodyEnd, 0;
    if profile.OneByte? {
      var id, length := s[0] / 16, s[0] % 16 + 1;
      if id == 15 {
        ending := Reserved(s[0] % 16, s[1..]);
      } else if 1 + length > |s| {
        ending := Overrun(id, length, s[1..]);
      } else {
        e, size := Element(id, s[1..1 + length]), 1 + length;
      }
    } else if |s| < 2 {
      ending := LoneId(s[0]);
    } else {
      var length: int := s[1];
      if 2 + length > |s| {
        ending := Overrun(s[0], length, s[2..]);
      } else {
        e, size := Element(s[0], s[2..2 + length]), 2 + length;
      }
    }
  }

  lemma {:induction false} LayoutOf(s: bytes, profile: Profile) returns (l: Layout)
    requires !profile.Unknown?
    ensures LayoutFits(l, profile) && Print(l, profile) == s
    decreases |s|
  {
    hide PrintElement, PrintEnding, HeadFits, EndingFits, LayoutFits, Print;
    if s == [] {
      l := Layout([], 0, BodyEnd);
      EmptyPrints(profile);
    } else if s[0] == 0 {
      var m := LayoutOf(s[1..], profile);
      l := ZeroFirst(m);
      ZeroFirstPrints(m, profile);
    } else {
      var e, ending, size := FirstThing(s, profile);
      if 0 < size <= |s| {
        var m := LayoutOf(s[size..], profile);
        l := ElementFirst(e, m);
        ElementFirstPrints(e, m, profile);
      } else {
        l := Layout([], 0, ending);
        EndingPrints(ending, profile);
      }
    }
  }

  lemma EmptyPrints(profile: Profile)
    requires !profile.Unknown?
    ensures LayoutFits(Layout([], 0, BodyEnd), profile) && Print(Layout([], 0, BodyEnd), profile) == []
  {
  }

  ghost predicate IsLayout(l: Layout, s: bytes, profile: Profile) {
    LayoutFits(l, profile) && Print(l, profile) == s
  }

  /** The parser returns the elements that a body is laid out as, and nothing else: in both formats, for every body. */
  lemma ElementsIff(s: bytes, profile: Profile, es: seq<Element>)
    requires !profile.Unknown?
    ensures ElementsIn(s, profile) == es <==> exists l :: IsLayout(l, s, profile) && Listed(l.placed) == es
  {
    hide ElementsIn, LayoutFits, Print;
    var l := LayoutOf(s, profile);
    assert IsLayout(l, s, profile);
    forall m | IsLayout(m, s, profile) ensures Listed(m.placed) == ElementsIn(s, profile) {
      LayoutIsRead(m, profile);
    }
  }

  // ---------------------------------------------------------------- id 0 in the one-byte format

  /** A complete element with id 0: its head byte is one of 0x01 to 0x0F. */
  predicate HasIdZero(ps: seq<Placed>) {
    exists i :: 0 <= i < |ps| && ps[i].element.id == 0
  }

  lemma HasIdZeroFront(ps: seq<Placed>)
    requires ps != []
    ensures HasIdZero(ps) <==> ps[0].element.id == 0 || HasIdZero(ps[1..])
  {
    if HasIdZero(ps[1..]) {
      var i :| 0 <= i < |ps[1..]| && ps[1..][i].element.id == 0;
      assert ps[i + 1].element.id == 0;
    }
    if HasIdZero(ps) && ps[0].element.id != 0 {
      var i :| 0 <= i < |ps| && ps[i].element.id == 0;
      assert ps[1..][i - 1].element.id == 0;
    }
  }

  /** Section 4.2 of RFC 8285: an id 0 whose length bits are not zero ends the elements. */
  function RfcElements(s: bytes): seq<Element>
    decreases |s|
  {
    if s == [] then []
    else if s[0] == 0 then RfcElements(s[1..])
    else
      var end := s[0] % 16 + 2;
      if s[0] / 16 == 0 || s[0] / 16 == 15 || end > |s| then []
      else [Element(s[0] / 16, s[1..end])] + RfcElements(s[end..])
  }

  function BeforeIdZero(ps: seq<Placed>): seq<Element> {
    if ps == [] || ps[0].element.id == 0 then [] else [ps[0].element] + BeforeIdZero(ps[1..])
  }

  lemma {:induction false} RfcSkipsZeros(n: nat, s: bytes)
    ensures RfcElements(Zeros(n) + s) == RfcElements(s)
  {
    if n == 0 {
      assert Zeros(0) + s == s;
    } else {
      RfcSkipsZeros(n - 1, s);
      assert (Zeros(n) + s)[1..] == Zeros(n - 1) + s;
    }
  }

  lemma PrintedParts(e: Element, rest: bytes)
    requires HeadFits(e.id, |e.data|, OneByte)
    ensures var s := PrintElement(e, OneByte) + rest;
            && |s| == 1 + |e.data| + |rest| && s[0] / 16 == e.id && s[0] % 16 == |e.data| - 1 && s[0] != 0
            && s[1..1 + |e.data|] == e.data && s[1 + |e.data|..] == rest
  {
  }

  lemma RfcReadsElement(e: Element, rest: bytes)
    requires HeadFits(e.id, |e.data|, OneByte)
    ensures RfcElements(PrintElement(e, OneByte) + rest) == if e.id == 0 then [] else [e] + RfcElements(rest)
  {
    PrintedParts(e, rest);
    hide PrintElement, HeadFits;
  }

  lemma RfcStops(e: Ending)
    requires EndingFits(e, OneByte)
    ensures RfcElements(PrintEnding(e, OneByte)) == []
  {
  }

  lemma {:induction false} LayoutByRfc(l: Layout)
    requires LayoutFits(l, OneByte)
    ensures RfcElements(Print(l, OneByte)) == BeforeIdZero(l.placed)
    decreases |l.placed|
  {
    hide RfcElements, PrintElement, PrintEnding, HeadFits, EndingFits;
    if l.placed == [] {
      RfcSkipsZeros(l.zeros, PrintEnding(l.ending, OneByte));
      RfcStops(l.ending);
    } else {
      var rest := l.(placed := l.placed[1..]);
      var e := l.placed[0].element;
      RfcSkipsZeros(l.placed[0].zeros, PrintElement(e, OneByte) + Print(rest, OneByte));
      RfcReadsElement(e, Print(rest, OneByte));
      LayoutByRfc(rest);
    }
  }

  lemma {:induction false} BeforeIdZeroIsAll(ps: seq<Placed>)
    ensures BeforeIdZero(ps) == Listed(ps) <==> !HasIdZero(ps)
  {
    if ps != [] {
      HasIdZeroFront(ps);
      BeforeIdZeroIsAll(ps[1..]);
      hide HasIdZero;
      assert ps[0].element.id != 0 && BeforeIdZero(ps) == Listed(ps) ==>
        BeforeIdZero(ps)[1..] == BeforeIdZero(ps[1..]) && Listed(ps)[1..] == Listed(ps[1..]);
    }
  }

  /** The parser reads a one-byte body as RFC 8285 does exactly when no complete element in it has id 0. */
  lemma AgreesWithRfc(l: Layout, s: bytes)
    requires IsLayout(l, s, OneByte)
    ensures OneByteElements(s) == RfcElements(s) <==> !HasIdZero(l.placed)
  {
    hide OneByteElements, RfcElements, Print, HasIdZero;
    LayoutIsRead(l, OneByte);
    LayoutByRfc(l);
    BeforeIdZeroIsAll(l.placed);
  }

  // ---------------------------------------------------------------- id 0 as documented

  /** The documentation's rule: a byte whose id is 0 is padding, whatever its length bits. */
  function DocumentedElements(s: bytes): (es: seq<Element>)
    ensures forall i :: 0 <= i < |es| ==> es[i].id != 0
    decreases |s|
  {
    if s == [] then []
    else if s[0] / 16 == 0 then DocumentedElements(s[1..])
    else
      var end := s[0] % 16 + 2;
      if s[0] / 16 == 15 || end > |s| then []
      else [Element(s[0] / 16, s[1..end])] + DocumentedElements(s[end..])
  }

  lemma {:induction false} DocumentedSkipsZeros(n: nat, s: bytes)
    ensures DocumentedElements(Zeros(n) + s) == DocumentedElements(s)
  {
    if n == 0 {
      assert Zeros(0) + s == s;
    } else {
      DocumentedSkipsZeros(n - 1, s);
      assert (Zeros(n) + s)[1..] == Zeros(n - 1) + s;
    }
  }

  lemma DocumentedReadsElement(e: Element, rest: bytes)
    requires HeadFits(e.id, |e.data|, OneByte) && e.id != 0
    ensures DocumentedElements(PrintElement(e, OneByte) + rest) == [e] + DocumentedElements(rest)
  {
    PrintedParts(e, rest);
    hide PrintElement, HeadFits;
  }

  /** What the documented rule still reads behind an id 0 that claims more bytes than are left. */
  function StillRead(e: Ending): seq<Element> {
    if e.Overrun? && e.id == 0 then DocumentedElements(e.behind) else []
  }

  lemma DocumentedStops(e: Ending)
    requires EndingFits(e, OneByte)
    ensures DocumentedElements(PrintEnding(e, OneByte)) == StillRead(e)
  {
    if e.Overrun? { assert PrintEnding(e, OneByte)[1..] == e.behind; }
  }

  lemma {:induction false} LayoutAsDocumented(l: Layout)
    requires LayoutFits(l, OneByte) && !HasIdZero(l.placed)
    ensures DocumentedElements(Print(l, OneByte)) == Listed(l.placed) + StillRead(l.ending)
    decreases |l.placed|
  {
    hide DocumentedElements, PrintElement, PrintEnding, HeadFits, EndingFits, StillRead, HasIdZero;
    if l.placed == [] {
      DocumentedSkipsZeros(l.zeros, PrintEnding(l.ending, OneByte));
      DocumentedStops(l.ending);
    } else {
      HasIdZeroFront(l.placed);
      var rest := l.(placed := l.placed[1..]);
      var e := l.placed[0].element;
      DocumentedSkipsZeros(l.placed[0].zeros, PrintElement(e, OneByte) + Print(rest, OneByte));
      DocumentedReadsElement(e, Print(rest, OneByte));
      LayoutAsDocumented(rest);
      assert ([e] + Listed(rest.placed)) + StillRead(l.ending) == [e] + (Listed(rest.placed) + StillRead(l.ending));
    }
  }

  /**
   * The parser follows the documented rule exactly on the bodies in which no complete element has id 0, and
   * in which an incomplete one with id 0 at the end has nothing behind it that could be read as elements.
   */
  lemma AgreesWithDocumentation(l: Layout, s: bytes)
    requires IsLayout(l, s, OneByte)
    ensures OneByteElements(s) == DocumentedElements(s) <==> !HasIdZero(l.placed) && StillRead(l.ending) == []
  {
    hide OneByteElements, Print, StillRead;
    LayoutIsRead(l, OneByte);
    if HasIdZero(l.placed) {
      var i :| 0 <= i < |l.placed| && l.placed[i].element.id == 0;
      assert OneByteElements(s)[i].id == 0;
    } else {
      LayoutAsDocumented(l);
      assert |Listed(l.placed) + StillRead(l.ending)| == |Listed(l.placed)| + |StillRead(l.ending)|;
      assert Listed(l.placed) + [] == Listed(l.placed);
    }
  }

  /** Parsed elements can be built again exactly when the body they were read from holds no complete id 0. */
  lemma RebuiltIff(ext: HeaderExtension, l: Layout)
    requires !Classify(ext.profile).Unknown? && |ext.data| == 4 * ext.length
    requires IsLayout(l, ext.data, Classify(ext.profile))
    ensures BuildExtension(Elements(ext), Classify(ext.profile)).Success? <==> !HasIdZero(l.placed)
  {
    hide BuildExtension, Print;
    var es := Elements(ext);
    LayoutIsRead(l, Classify(ext.profile));
    ElementsCanonical(ext);
    assert HasIdZero(l.placed) <==> exists i :: 0 <= i < |es| && es[i].id == 0;
  }
}
