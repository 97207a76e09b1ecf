/** RFC 8285 header extension elements (src/rtpkit/model/extension.py). */
module RtpExtension {
  import opened Bytes
  import opened Wrappers
  import opened RtpModel

  const ONE_BYTE_MAGIC := 0xBEDE
  const TWO_BYTE_VALUE := 0x1000

  datatype Profile = Unknown | OneByte | TwoByte

  datatype Element = Element(id: int, data: bytes)

  datatype RtpBuildError = RtpBuildError

  type Wire = Result<bytes, RtpBuildError>

  function Classify(profile: int): Profile {
    if profile == ONE_BYTE_MAGIC then OneByte
    else if profile % 0x1_0000 / 0x10 == TWO_BYTE_VALUE / 0x10 then TwoByte
    else Unknown
  }

  /** The profile numbers: 0xBEDE is one-byte, 0x1000 to 0x100F are two-byte, and all others unknown. */
  lemma Profiles(profile: int)
    requires Fits16(profile)
    ensures Classify(profile) == OneByte <==> profile == 0xBEDE
    ensures Classify(profile) == TwoByte <==> 0x1000 <= profile <= 0x100F
  {
  }

  // ---------------------------------------------------------------- reading elements

  /** The elements of a one-byte body: zeros are padding, and id 15 ends the list. */
  function OneByteElements(s: bytes): seq<Element>
    decreases |s|
  {
    if s == [] then []
    else if s[0] == 0 then OneByteElements(s[1..])
    else
      var end := s[0] % 16 + 2;
      if s[0] / 16 == 15 || end > |s| then []
      else [Element(s[0] / 16, s[1..end])] + OneByteElements(s[end..])
  }

  /** The elements of a two-byte body: zeros are padding. */
  function TwoByteElements(s: bytes): seq<Element>
    decreases |s|
  {
    if s == [] then []
    else if s[0] == 0 then TwoByteElements(s[1..])
    else if |s| < 2 || 2 + s[1] as int > |s| then []
    else
      var end := 2 + s[1] as int;
      [Element(s[0], s[2..end])] + TwoByteElements(s[end..])
  }

  /** The elements of a body, read in the format `profile`. */
  function ElementsIn(s: bytes, profile: Profile): seq<Element> {
    match profile
    case Unknown => []
    case OneByte => OneByteElements(s)
    case TwoByte => TwoByteElements(s)
  }

  function Elements(ext: HeaderExtension): seq<Element> {
    ElementsIn(ext.data, Classify(ext.profile))
  }

  lemma OneByteStep(elements: seq<Element>, s: bytes)
    requires s != []
    ensures s[0] == 0 ==> OneByteElements(s) == OneByteElements(s[1..])
    ensures s[0] != 0 ==>
      var end := s[0] % 16 + 2;
      elements + OneByteElements(s)
      == if s[0] / 16 == 15 || end > |s| then elements
         else elements + [Element(s[0] / 16, s[1..end])] + OneByteElements(s[end..])
  {
    assert elements + [] == elements;
    var end := s[0] % 16 + 2;
    if s[0] != 0 && s[0] / 16 != 15 && end <= |s| {
      Append(elements, Element(s[0] / 16, s[1..end]), OneByteElements(s[end..]));
    }
  }

  method ParseOneByte(data: bytes) returns (elements: seq<Element>)
    ensures elements == OneByteElements(data)
  {
    hide OneByteElements;
    elements := [];
    var pos, length := 0, |data|;
    assert data[0..] == data && elements + OneByteElements(data) == OneByteElements(data);
    while pos < length
      invariant pos <= length
      invariant elements + OneByteElements(data[pos..]) == OneByteElements(data)
    {
      ghost var rest := data[pos..];
      OneByteStep(elements, rest);
      var b := data[pos];
      if b == 0 {
        assert rest[1..] == data[pos + 1..];
        pos := pos + 1;
        continue;
      }
      var elemId := b / 16;
      if elemId == 15 {
        return;
      }
      var elemLen := b % 16 + 1;
      pos := pos + 1;
      if pos + elemLen > length {
        return;
      }
      assert rest[1..elemLen + 1] == data[pos..pos + elemLen];
      assert rest[elemLen + 1..] == data[pos + elemLen..];
      elements := elements + [Element(elemId, data[pos..pos + elemLen])];
      pos := pos + elemLen;
    }
    NothingLeft(elements);
    assert data[pos..] == [];
  }

  lemma NothingLeft(elements: seq<Element>)
    ensures elements + OneByteElements([]) == elements && elements + TwoByteElements([]) == elements
  {
  }

  lemma TwoByteStep(elements: seq<Element>, s: bytes)
    requires s != []
    ensures s[0] == 0 ==> TwoByteElements(s) == TwoByteElements(s[1..])
    ensures s[0] != 0 && (|s| < 2 || 2 + s[1] as int > |s|) ==> elements + TwoByteElements(s) == elements
    ensures s[0] != 0 && |s| >= 2 && 2 + s[1] as int <= |s| ==>
      var end := 2 + s[1] as int;
      elements + TwoByteElements(s) == elements + [Element(s[0], s[2..end])] + TwoByteElements(s[end..])
  {
    assert elements + [] == elements;
    if s[0] != 0 && |s| >= 2 && 2 + s[1] as int <= |s| {
      var end := 2 + s[1] as int;
      Append(elements, Element(s[0], s[2..end]), TwoByteElements(s[end..]));
    }
  }

  method ParseTwoByte(data: bytes) returns (elements: seq<Element>)
    ensures elements == TwoByteElements(data)
  {
    hide TwoByteElements;
    elements := [];
    var pos, length := 0, |data|;
    assert data[0..] == data && elements + TwoByteElements(data) == TwoByteElements(data);
    while pos < length
      invariant pos <= length
      invariant elements + TwoByteElements(data[pos..]) == TwoByteElements(data)
    {
      ghost var rest := data[pos..];
      TwoByteStep(elements, rest);
      var elemId := data[pos];
      if elemId == 0 {
        assert rest[1..] == data[pos + 1..];
        pos := pos + 1;
        continue;
      }
      pos := pos + 1;
      if pos >= length {
        return;
      }
      var elemLen := data[pos];
      pos := pos + 1;
      if pos + elemLen > length {
        return;
      }
      assert rest[2..2 + elemLen as int] == data[pos..pos + elemLen];
      assert rest[2 + elemLen as int..] == data[pos + elemLen..];
      elements := elements + [Element(elemId, data[pos..pos + elemLen])];
      pos := pos + elemLen;
    }
    NothingLeft(elements);
    assert data[pos..] == [];
  }

  method ParseExtensionElements(ext: HeaderExtension) returns (elements: seq<Element>)
    ensures elements == Elements(ext)
  {
    var kind := Classify(ext.profile);
    if kind.Unknown? {
      return [];
    }
    if kind.OneByte? {
      elements := ParseOneByte(ext.data);
    } else {
      elements := ParseTwoByte(ext.data);
    }
  }

  // ---------------------------------------------------------------- writing elements

  /** Whether an element fits the format. */
  predicate Fits(e: Element, profile: Profile) {
    match profile
    case OneByte => 1 <= e.id <= 14 && 1 <= |e.data| <= 16
    case TwoByte => 1 <= e.id <= 255 && |e.data| <= 255
    case Unknown => false
  }

  function Encode(e: Element, profile: Profile): bytes
    requires Fits(e, profile)
  {
    if profile.OneByte? then [e.id * 16 + (|e.data| - 1)] + e.data else [e.id, |e.data|] + e.data
  }

  function EncodeAll(es: seq<Element>, profile: Profile): bytes
    requires forall i :: 0 <= i < |es| ==> Fits(es[i], profile)
  {
    if es == [] then [] else Encode(es[0], profile) + EncodeAll(es[1..], profile)
  }

  /** What `build_header_extension` returns or raises. */
  function BuildExtension(es: seq<Element>, profile: Profile): Result<HeaderExtension, RtpBuildError> {
    if profile.Unknown? || !forall i :: 0 <= i < |es| ==> Fits(es[i], profile) then Failure(RtpBuildError)
    else
      var raw := EncodeAll(es, profile);
      var body := raw + Zeros(Pad4(|raw|));
      Success(HeaderExtension(if profile.OneByte? then ONE_BYTE_MAGIC else TWO_BYTE_VALUE, |body| / 4, body))
  }

  lemma EncodeNothing()
    ensures EncodeAll([], OneByte) == [] && EncodeAll([], TwoByte) == []
  {
  }

  lemma EncodeAllAppend(es: seq<Element>, e: Element, profile: Profile)
    requires forall i :: 0 <= i < |es| ==> Fits(es[i], profile)
    requires Fits(e, profile)
    ensures EncodeAll(es + [e], profile) == EncodeAll(es, profile) + Encode(e, profile)
  {
    if es == [] {
      assert [] + [e] == [e];
      assert Encode(e, profile) + [] == Encode(e, profile);
    } else {
      assert (es + [e])[1..] == es[1..] + [e];
      EncodeAllAppend(es[1..], e, profile);
    }
  }

  method BuildOneByte(elements: seq<Element>) returns (r: Wire)
    ensures r.Success? <==> forall i :: 0 <= i < |elements| ==> Fits(elements[i], OneByte)
    ensures r.Success? ==> r.value == EncodeAll(elements, OneByte)
    ensures r.Failure? ==> r.error == RtpBuildError
  {
    hide EncodeAll;
    var parts := [];
    EncodeNothing();
    for i := 0 to |elements|
      invariant forall k :: 0 <= k < i ==> Fits(elements[k], OneByte)
      invariant parts == EncodeAll(elements[..i], OneByte)
    {
      var elem := elements[i];
      if !(1 <= elem.id <= 14) {
        return Failure(RtpBuildError);
      }
      if !(1 <= |elem.data| <= 16) {
        return Failure(RtpBuildError);
      }
      EncodeAllAppend(elements[..i], elem, OneByte);
      assert elements[..i + 1] == elements[..i] + [elem];
      parts := parts + ([elem.id * 16 + (|elem.data| - 1)] + elem.data);
    }
    assert elements[..|elements|] == elements;
    return Success(parts);
  }

  method BuildTwoByte(elements: seq<Element>) returns (r: Wire)
    ensures r.Success? <==> forall i :: 0 <= i < |elements| ==> Fits(elements[i], TwoByte)
    ensures r.Success? ==> r.value == EncodeAll(elements, TwoByte)
    ensures r.Failure? ==> r.error == RtpBuildError
  {
    hide EncodeAll;
    var parts := [];
    EncodeNothing();
    for i := 0 to |elements|
      invariant forall k :: 0 <= k < i ==> Fits(elements[k], TwoByte)
      invariant parts == EncodeAll(elements[..i], TwoByte)
    {
      var elem := elements[i];
      if !(1 <= elem.id <= 255) {
        return Failure(RtpBuildError);
      }
      if |elem.data| > 255 {
        return Failure(RtpBuildError);
      }
      EncodeAllAppend(elements[..i], elem, TwoByte);
      assert elements[..i + 1] == elements[..i] + [elem];
      parts := parts + ([elem.id, |elem.data|] + elem.data);
    }
    assert elements[..|elements|] == elements;
    return Success(parts);
  }

  method BuildHeaderExtension(elements: seq<Element>, profile: Profile)
    returns (r: Result<HeaderExtension, RtpBuildError>)
    ensures r == BuildExtension(elements, profile)
  {
    if profile.Unknown? {
      return Failure(RtpBuildError);
    }
    var body: bytes, value: int;
    if profile.OneByte? {
      value := ONE_BYTE_MAGIC;
      body :- BuildOneByte(elements);
    } else {
      value := TWO_BYTE_VALUE;
      body :- BuildTwoByte(elements);
    }
    body := body + Zeros(Pad4(|body|));
    return Success(HeaderExtension(value, |body| / 4, body));
  }

  // ---------------------------------------------------------------- laws

  lemma {:induction false} ZerosHoldNoElements(n: nat)
    ensures OneByteElements(Zeros(n)) == [] && TwoByteElements(Zeros(n)) == []
  {
    if n > 0 {
      ZerosHoldNoElements(n - 1);
      assert Zeros(n)[1..] == Zeros(n - 1);
    }
  }

  lemma EncodedElement(e: Element, profile: Profile, rest: bytes)
    requires Fits(e, profile)
    ensures ElementsIn(Encode(e, profile) + rest, profile) == [e] + ElementsIn(rest, profile)
  {
    var s := Encode(e, profile) + rest;
    var start := if profile.OneByte? then 1 else 2;
    assert s[start..start + |e.data|] == e.data;
    assert s[start + |e.data|..] == rest;
  }

  lemma {:induction false} EncodedElements(es: seq<Element>, profile: Profile, filler: nat)
    requires forall i :: 0 <= i < |es| ==> Fits(es[i], profile)
    ensures ElementsIn(EncodeAll(es, profile) + Zeros(filler), profile) == es
  {
    ZerosHoldNoElements(filler);
    if es == [] {
      assert [] + Zeros(filler) == Zeros(filler);
    } else {
      hide OneByteElements, TwoByteElements, Encode, Zeros;
      var rest := EncodeAll(es[1..], profile) + Zeros(filler);
      assert EncodeAll(es, profile) + Zeros(filler) == Encode(es[0], profile) + rest;
      EncodedElement(es[0], profile, rest);
      EncodedElements(es[1..], profile, filler);
      assert [es[0]] + es[1..] == es;
    }
  }

  /** Elements come back from the extension built of them, in both formats. */
  lemma ElementsRoundTrip(es: seq<Element>, profile: Profile)
    requires BuildExtension(es, profile).Success?
    ensures var ext := BuildExtension(es, profile).value;
            Classify(ext.profile) == profile && Elements(ext) == es
            && ext.profile == (if profile.OneByte? then 0xBEDE else 0x1000)
            && |ext.data| == 4 * ext.length && Fits16(ext.profile)
  {
    var raw := EncodeAll(es, profile);
    EncodedElements(es, profile, Pad4(|raw|));
  }

  /** What holds of a list holds of its first element and of the rest. */
  lemma FitsAll(es: seq<Element>, profile: Profile)
    requires es != []
    ensures (forall i :: 0 <= i < |es| ==> Fits(es[i], profile))
            <==> Fits(es[0], profile) && forall i :: 0 <= i < |es[1..]| ==> Fits(es[1..][i], profile)
  {
    hide Fits;
    assert forall i :: 0 < i < |es| ==> es[i] == es[1..][i - 1];
  }

  lemma {:induction false} OneByteCanonical(s: bytes)
    ensures var es := OneByteElements(s);
            (forall i :: 0 <= i < |es| ==> 0 <= es[i].id <= 14 && 1 <= |es[i].data| <= 16)
            && ((forall i :: 0 <= i < |es| ==> Fits(es[i], OneByte)) ==> |EncodeAll(es, OneByte)| <= |s|)
    decreases |s|
  {
    if s != [] && s[0] == 0 {
      OneByteCanonical(s[1..]);
    } else if s != [] && s[0] / 16 != 15 && s[0] % 16 + 2 <= |s| {
      var end := s[0] % 16 + 2;
      var es, rest := OneByteElements(s), OneByteElements(s[end..]);
      OneByteCanonical(s[end..]);
      FitsAll(es, OneByte);
      assert es == [Element(s[0] / 16, s[1..end])] + rest;
      assert es[1..] == rest;
      hide OneByteElements;
    }
  }

  lemma {:induction false} TwoByteCanonical(s: bytes)
    ensures var es := TwoByteElements(s);
            (forall i :: 0 <= i < |es| ==> Fits(es[i], TwoByte)) && |EncodeAll(es, TwoByte)| <= |s|
    decreases |s|
  {
    if s != [] && s[0] == 0 {
      TwoByteCanonical(s[1..]);
    } else if |s| >= 2 && 2 + s[1] as int <= |s| {
      var end := 2 + s[1] as int;
      var es, rest := TwoByteElements(s), TwoByteElements(s[end..]);
      TwoByteCanonical(s[end..]);
      assert es[1..] == rest;
      assert forall i :: 0 < i < |es| ==> es[i] == rest[i - 1];
    }
  }

  /**
   * Parsed elements can be built again in the format they were read in, except for one-byte elements
   * with id 0, which the parser returns when their length bits are not zero; the extension is then
   * no longer than the one read and holds the same elements.
   */
  lemma ElementsCanonical(ext: HeaderExtension)
    requires !Classify(ext.profile).Unknown? && |ext.data| == 4 * ext.length
    ensures var es, profile := Elements(ext), Classify(ext.profile);
            (BuildExtension(es, profile).Success? <==> forall i :: 0 <= i < |es| ==> es[i].id != 0)
            && (BuildExtension(es, profile).Success? ==>
                var again := BuildExtension(es, profile).value;
                again.length <= ext.length && Elements(again) == es)
  {
    var es, profile := Elements(ext), Classify(ext.profile);
    OneByteCanonical(ext.data);
    TwoByteCanonical(ext.data);
    if BuildExtension(es, profile).Success? { ElementsRoundTrip(es, profile); }
  }

  /** The parser's departure from section 4.2 of RFC 8285: id 0 is an element when its length bits are set. */
  lemma IdZeroIsReturned()
    ensures Elements(HeaderExtension(ONE_BYTE_MAGIC, 1, [0x01, 0xAA, 0xBB, 0x00])) == [Element(0, [0xAA, 0xBB])]
  {
    var s: bytes := [0x01, 0xAA, 0xBB, 0x00];
    assert s[1..3] == [0xAA, 0xBB] && s[3..] == [0x00];
    assert OneByteElements([0x00]) == [] by { assert [0x00 as byte][1..] == []; }
  }
}
