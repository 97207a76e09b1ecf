/** build and parse undo each other for RTP packets, header extension elements included. */
module RtpRoundTrip {
  import opened Bytes
  import opened Wrappers
  import opened RtpModel
  import opened RtpExtension
  import opened RtpParser
  import opened RtpBuilder

  // ---------------------------------------------------------------- build then parse

  /** The packet that valid fields describe, read from the buffer `raw`. */
  function PacketOf(f: Fields, raw: bytes): RtpPacket
    requires Valid(f)
  {
    RtpPacket(f.version, f.padding > 0, f.ext.Some?, f.marker, f.payloadType, f.number, f.timestamp, f.ssrc, f.csrc,
              if f.ext.None? then None
              else Some(HeaderExtension(f.ext.value.0, |f.ext.value.1| / 4, f.ext.value.1)),
              f.payload, f.padding, raw)
  }

  lemma FieldsAt(s: bytes, at: nat, n: nat, w: nat)
    requires at + w <= |s| && (w == 2 || w == 4) && n < Pow256(w) && s[at..at + w] == BE(n, w)
    ensures w == 2 ==> U16(s, at) == n
    ensures w == 4 ==> U32(s, at) == n
  {
    UnpackPackBE(n, w);
  }

  lemma FixedHeaderRead(f: Fields, rest: bytes)
    requires Valid(f)
    ensures var s := FixedHeader(f) + rest;
            && s[0] / 64 == f.version && (s[0] / 32 % 2 == 1 <==> f.padding > 0)
            && (s[0] / 16 % 2 == 1 <==> f.ext.Some?) && s[0] % 16 == |f.csrc|
            && (s[1] / 128 == 1 <==> f.marker) && s[1] % 128 == f.payloadType
            && U16(s, 2) == f.number && U32(s, 4) == f.timestamp && U32(s, 8) == f.ssrc
  {
    hide BE, UnBE;
    var s := FixedHeader(f) + rest;
    Widths();
    FieldsAt(s, 2, f.number, 2);
    FieldsAt(s, 4, f.timestamp, 4);
    FieldsAt(s, 8, f.ssrc, 4);
  }

  lemma ExtensionRead(data: bytes, offset: nat, f: Fields, rest: bytes, strict: bool)
    requires Valid(f) && |data| >= 12 && offset <= |data|
    requires data[0] / 16 % 2 == 1 <==> f.ext.Some?
    requires data[offset..] == ExtensionBytes(f.ext) + rest
    ensures ExtensionAt(data, offset, strict) == Success(PacketOf(f, data).headerExtension)
    ensures data[AfterExtension(offset, PacketOf(f, data).headerExtension)..] == rest
  {
    hide BE, UnBE, U16;
    if f.ext.Some? {
      var (profile, body) := f.ext.value;
      var words := |body| / 4;
      ExtensionParts(data, offset, BE(profile, 2), BE(words, 2), body, rest);
      Widths();
      FieldsAt(data, offset, profile, 2);
      FieldsAt(data, offset + 2, words, 2);
    } else {
      assert ExtensionBytes(f.ext) + rest == rest;
    }
  }

  lemma ExtensionParts(data: bytes, offset: nat, profile: bytes, words: bytes, body: bytes, rest: bytes)
    requires offset <= |data| && |profile| == |words| == 2 && data[offset..] == profile + words + body + rest
    ensures var at := offset + 4 + |body|;
            && at <= |data| && data[offset..offset + 2] == profile && data[offset + 2..offset + 4] == words
            && data[offset + 4..at] == body && data[at..] == rest
  {
    var tail := data[offset..];
    assert tail[0..2] == profile && tail[2..4] == words && tail[4..4 + |body|] == body && tail[4 + |body|..] == rest;
  }

  /** Padding bytes as a receiver may find them: any filler, and their number in the last of them. */
  predicate IsPadding(pad: bytes, padding: int) {
    |pad| == padding <= 255 && (padding > 0 ==> pad[padding - 1] == padding)
  }

  lemma PaddingRead(data: bytes, offset: nat, payload: bytes, pad: bytes, strict: bool)
    requires |data| >= 12 && offset <= |data| && IsPadding(pad, |pad|)
    requires data[0] / 32 % 2 == 1 <==> pad != []
    requires data[offset..] == payload + pad
    ensures PaddingAt(data, offset, strict) == Success(|pad|)
    ensures |pad| <= |data| - offset && data[offset..|data| - |pad|] == payload
  {
    var tail := data[offset..];
    if pad != [] {
      assert data[|data| - 1] == tail[|tail| - 1] == pad[|pad| - 1];
    }
    assert data[offset..|data| - |pad|] == tail[..|tail| - |pad|];
  }

  /** The bytes of valid fields, with any filler in their padding. */
  predicate IsEncoding(f: Fields, pad: bytes, data: bytes) {
    Valid(f) && IsPadding(pad, f.padding)
    && data == FixedHeader(f) + Words(f.csrc) + ExtensionBytes(f.ext) + f.payload + pad
  }

  lemma FiveParts(a: bytes, b: bytes, c: bytes, d: bytes, e: bytes)
    ensures var s := a + b + c + d + e;
            && s == a + (b + (c + (d + e))) && s[|a|..] == b + (c + (d + e))
            && s[|a| + |b|..] == c + (d + e)
  {
  }

  lemma EncodingRead(f: Fields, pad: bytes, s: bytes, strict: bool)
    requires Valid(f) && IsPadding(pad, f.padding)
    requires s == FixedHeader(f) + Words(f.csrc) + ExtensionBytes(f.ext) + f.payload + pad
    ensures Rtp(s, strict) == if strict && f.version != 2 then Failure(InvalidVersion) else Success(PacketOf(f, s))
  {
    hide BE, UnBE, FixedHeader, ExtensionBytes, ExtensionAt, PaddingAt, Words, UnWords, U16, U32, Rtp;
    assert |pad| == f.padding && IsPadding(pad, |pad|);
    hide IsPadding;
    var tail := f.payload + pad;
    var csrcEnd := 12 + 4 * |f.csrc|;
    FiveParts(FixedHeader(f), Words(f.csrc), ExtensionBytes(f.ext), f.payload, pad);
    FixedHeaderRead(f, Words(f.csrc) + (ExtensionBytes(f.ext) + tail));
    UnpackPackWords(f.csrc, ExtensionBytes(f.ext) + tail);
    ExtensionRead(s, csrcEnd, f, tail, strict);
    PaddingRead(s, AfterExtension(csrcEnd, PacketOf(f, s).headerExtension), f.payload, pad, strict);
    PartsRead(f, s, strict);
  }

  /** A buffer whose parts read as the fields say parses to the packet they describe. */
  lemma PartsRead(f: Fields, s: bytes, strict: bool)
    requires Valid(f) && |s| >= 12 + 4 * |f.csrc|
    requires s[0] / 64 == f.version && (s[0] / 32 % 2 == 1 <==> f.padding > 0)
    requires (s[0] / 16 % 2 == 1 <==> f.ext.Some?) && s[0] % 16 == |f.csrc|
    requires (s[1] / 128 == 1 <==> f.marker) && s[1] % 128 == f.payloadType
    requires U16(s, 2) == f.number && U32(s, 4) == f.timestamp && U32(s, 8) == f.ssrc
    requires UnWords(s[12..], |f.csrc|) == f.csrc
    requires ExtensionAt(s, 12 + 4 * |f.csrc|, strict) == Success(PacketOf(f, s).headerExtension)
    requires var offset := AfterExtension(12 + 4 * |f.csrc|, PacketOf(f, s).headerExtension);
             && PaddingAt(s, offset, strict) == Success(f.padding)
             && f.padding <= |s| - offset && s[offset..|s| - f.padding] == f.payload
    ensures Rtp(s, strict) == if strict && f.version != 2 then Failure(InvalidVersion) else Success(PacketOf(f, s))
  {
    hide ExtensionAt, PaddingAt, UnWords, U16, U32;
  }

  /** A built packet parses to the packet its fields describe: leniently always, strictly if its version is 2. */
  lemma BuildParseRoundTrip(f: Fields, strict: bool)
    requires Built(f).Success?
    ensures var s := Built(f).value;
            Rtp(s, strict) == if strict && f.version != 2 then Failure(InvalidVersion) else Success(PacketOf(f, s))
  {
    hide FixedHeader, ExtensionBytes, Words, Rtp;
    EncodingRead(f, PaddingBytes(f.padding), Built(f).value, strict);
  }

  /**
   * Elements put into a builder's fields come back, in both formats, from the packet built and strictly
   * parsed, along with every other field.
   */
  lemma NestedRoundTrip(f: Fields, es: seq<Element>, profile: Profile)
    requires BuildExtension(es, profile).Success? && f.version == 2
    requires var ext := BuildExtension(es, profile).value; f.ext == Some((ext.profile, ext.data))
    requires Built(f).Success?
    ensures var r := Rtp(Built(f).value, true);
            r == Success(PacketOf(f, Built(f).value))
            && r.value.headerExtension.Some? && Elements(r.value.headerExtension.value) == es
  {
    BuildParseRoundTrip(f, true);
    ElementsRoundTrip(es, profile);
  }

  // ---------------------------------------------------------------- parse then build

  /** An extension as the builder takes it. */
  function ExtensionField(ext: Option<HeaderExtension>): Option<(int, bytes)> {
    if ext.None? then None else Some((ext.value.profile, ext.value.data))
  }

  /** The fields with which to build a parsed packet again. */
  function FieldsOf(p: RtpPacket): Fields {
    Fields(p.version, p.paddingSize, p.marker, p.payloadType, p.sequenceNumber, p.timestamp, p.ssrc, p.csrc,
           ExtensionField(p.headerExtension), p.payload)
  }

  /** A strictly accepted packet's flags agree with what was found. */
  lemma FlagsOf(data: bytes)
    requires Rtp(data, true).Success?
    ensures var p := Rtp(data, true).value;
            && |data| >= 12 && p.version == data[0] / 64 && |p.csrc| == data[0] % 16
            && (p.paddingSize > 0 <==> data[0] / 32 % 2 == 1) && 0 <= p.paddingSize <= 255
            && (p.headerExtension.Some? <==> data[0] / 16 % 2 == 1)
            && (p.marker <==> data[1] / 128 == 1) && p.payloadType == data[1] % 128
            && p.sequenceNumber == U16(data, 2) && p.timestamp == U32(data, 4) && p.ssrc == U32(data, 8)
            && (p.headerExtension.Some? ==>
                var ext := p.headerExtension.value;
                Fits16(ext.profile) && |ext.data| % 4 == 0 && Fits16(|ext.data| / 4))
  {
    hide UnBE, UnWords;
  }

  /** The flag bits and counts of the first two bytes, taken apart and put together. */
  lemma FlagBytes(b: byte, c: byte)
    ensures b / 64 * 64 + (if b / 32 % 2 == 1 then 32 else 0) + (if b / 16 % 2 == 1 then 16 else 0) + b % 16 == b
    ensures (if c / 128 == 1 then 128 else 0) + c % 128 == c
  {
  }

  lemma FixedHeaderWritten(data: bytes)
    requires Rtp(data, true).Success?
    ensures var f := FieldsOf(Rtp(data, true).value); Valid(f) && FixedHeader(f) == data[..12]
  {
    hide Rtp, UnBE, BE;
    FlagsOf(data);
    FlagBytes(data[0], data[1]);
    HalfPacked(data, 2);
    WordPacked(data, 4);
    WordPacked(data, 8);
    hide U16, U32;
    assert [data[0], data[1]] + data[2..4] + data[4..8] + data[8..12] == data[..12];
  }

  lemma WordPacked(s: bytes, at: nat)
    requires at + 4 <= |s|
    ensures BE(U32(s, at), 4) == s[at..at + 4]
  {
    hide BE, UnBE;
    PackUnpackBE(s[at..at + 4]);
  }

  lemma HalfPacked(s: bytes, at: nat)
    requires at + 2 <= |s|
    ensures BE(U16(s, at), 2) == s[at..at + 2]
  {
    hide BE, UnBE;
    PackUnpackBE(s[at..at + 2]);
  }

  lemma ThreeSlices(s: bytes, a: nat, b: nat, c: nat, d: nat)
    requires a <= b <= c <= d <= |s|
    ensures s[a..b] + s[b..c] + s[c..d] == s[a..d]
  {
  }

  lemma ExtensionWritten(data: bytes, offset: nat)
    requires |data| >= 12 && offset <= |data| && ExtensionAt(data, offset, true).Success?
    ensures var ext := ExtensionAt(data, offset, true).value;
            var end := AfterExtension(offset, ext);
            && (ext.Some? ==> Fits16(ext.value.profile) && Fits16(|ext.value.data| / 4))
            && offset <= end <= |data| && ExtensionBytes(ExtensionField(ext)) == data[offset..end]
  {
    hide U16, BE;
    if ExtensionAt(data, offset, true).value.Some? {
      HalfPacked(data, offset);
      HalfPacked(data, offset + 2);
      ThreeSlices(data, offset, offset + 2, offset + 4, offset + 4 + 4 * U16(data, offset + 2));
    }
  }

  lemma FourSlices(s: bytes, a: nat, b: nat, c: nat, d: nat)
    requires a <= b <= c <= d <= |s|
    ensures s[..a] + s[a..b] + s[b..c] + s[c..d] == s[..d]
  {
  }

  /** The input with its padding filler zeroed. */
  function ZeroFilled(data: bytes, padding: nat): bytes
    requires padding <= 255 && padding <= |data|
  {
    data[..|data| - padding] + PaddingBytes(padding)
  }

  /** Where the parts of a strictly accepted packet lie in its buffer. */
  lemma PartsOf(data: bytes)
    requires Rtp(data, true).Success?
    ensures var p := Rtp(data, true).value;
            var csrcEnd := 12 + 4 * |p.csrc|;
            && |data| >= csrcEnd && UnWords(data[12..], |p.csrc|) == p.csrc
            && ExtensionAt(data, csrcEnd, true) == Success(p.headerExtension)
            && var offset := AfterExtension(csrcEnd, p.headerExtension);
               0 <= p.paddingSize <= 255 && offset + p.paddingSize <= |data|
               && p.payload == data[offset..|data| - p.paddingSize]
  {
    hide UnBE, UnWords, U16, U32, ExtensionAt;
  }

  /**
   * Byte-exact inverse: building from the fields of any strictly accepted packet gives back its buffer,
   * except that padding filler becomes zero.
   */
  lemma ParseBuildInverse(data: bytes)
    requires Rtp(data, true).Success?
    ensures var p := Rtp(data, true).value;
            0 <= p.paddingSize <= 255 && p.paddingSize <= |data|
            && Built(FieldsOf(p)) == Success(ZeroFilled(data, p.paddingSize))
  {
    hide Rtp, BE, FixedHeader, Words, UnWords, PaddingBytes, ExtensionAt, ExtensionBytes, ExtensionField, Valid;
    FixedHeaderWritten(data);
    PartsOf(data);
    var p := Rtp(data, true).value;
    var csrcEnd := 12 + 4 * |p.csrc|;
    PackUnpackWords(data[12..], |p.csrc|);
    assert Words(p.csrc) == data[12..csrcEnd];
    ExtensionWritten(data, csrcEnd);
    FourSlices(data, 12, csrcEnd, AfterExtension(csrcEnd, p.headerExtension), |data| - p.paddingSize);
  }

  /** The packet built again is as long, differs from the input only in the filler, and parses to the same fields. */
  lemma OnlyFillerChanges(data: bytes)
    requires Rtp(data, true).Success?
    ensures var p := Rtp(data, true).value;
            0 <= p.paddingSize <= 255 && p.paddingSize <= |data|
            && var s := ZeroFilled(data, p.paddingSize);
               |s| == |data|
               && (forall i :: 0 <= i < |data| && !(|data| - p.paddingSize <= i < |data| - 1) ==> s[i] == data[i])
               && Rtp(s, true) == Success(p.(raw := s))
  {
    hide Rtp, FixedHeader, ExtensionBytes, Words, Valid, Built, PacketOf;
    var p := Rtp(data, true).value;
    ParseBuildInverse(data);
    LastByte(data);
    PacketOfFieldsOf(data);
    BuildParseRoundTrip(FieldsOf(p), true);
  }

  lemma LastByte(data: bytes)
    requires Rtp(data, true).Success?
    ensures var p := Rtp(data, true).value; p.raw == data && (p.paddingSize > 0 ==> data[|data| - 1] == p.paddingSize)
  {
    hide UnBE, UnWords, U16, U32;
  }

  lemma PacketOfFieldsOf(data: bytes)
    requires Rtp(data, true).Success?
    ensures var p := Rtp(data, true).value;
            Valid(FieldsOf(p)) && FieldsOf(p).version == 2
            && forall raw :: PacketOf(FieldsOf(p), raw) == p.(raw := raw)
  {
    hide Rtp, FixedHeader, Valid;
    FixedHeaderWritten(data);
    FlagsOf(data);
    SizesOfExtension(data);
  }

  lemma SizesOfExtension(data: bytes)
    requires Rtp(data, true).Success?
    ensures var ext := Rtp(data, true).value.headerExtension;
            Rtp(data, true).value.version == 2
            && (ext.Some? ==> |ext.value.data| == 4 * ext.value.length)
            && (Rtp(data, true).value.extension <==> ext.Some?)
            && (Rtp(data, true).value.padding <==> Rtp(data, true).value.paddingSize > 0)
  {
    hide UnBE, UnWords, U16, U32;
  }

  // ---------------------------------------------------------------- the strict parser's language

  /** A strictly accepted buffer is the encoding of its packet's fields, with the padding it came with. */
  lemma AcceptedIsEncoding(data: bytes)
    requires Rtp(data, true).Success?
    ensures var p := Rtp(data, true).value;
            && 0 <= p.paddingSize <= |data|
            && IsEncoding(FieldsOf(p), data[|data| - p.paddingSize..], data)
            && FieldsOf(p).version == 2 && PacketOf(FieldsOf(p), data) == p
  {
    hide Rtp, FixedHeader, ExtensionBytes, Words, PacketOf, PaddingBytes;
    var p := Rtp(data, true).value;
    ParseBuildInverse(data);
    LastByte(data);
    PacketOfFieldsOf(data);
    var f, n := FieldsOf(p), |data| - p.paddingSize;
    var front := FixedHeader(f) + Words(f.csrc) + ExtensionBytes(f.ext) + f.payload;
    assert front == (front + PaddingBytes(f.padding))[..|front|] == data[..n];
    assert data == front + data[n..];
  }

  /**
   * The language of the strict parser: a buffer is accepted as a packet exactly when it encodes valid fields
   * of version 2, with any filler in its padding, and these are the packet's.
   */
  lemma AcceptedMeansEncoding(data: bytes, p: RtpPacket)
    ensures Rtp(data, true) == Success(p) <==>
      exists f, pad :: IsEncoding(f, pad, data) && f.version == 2 && PacketOf(f, data) == p
  {
    hide Rtp, PacketOf, FixedHeader, ExtensionBytes, Words, IsPadding;
    if Rtp(data, true) == Success(p) {
      AcceptedIsEncoding(data);
      assert IsEncoding(FieldsOf(p), data[|data| - p.paddingSize..], data);
    }
    if f, pad :| IsEncoding(f, pad, data) && f.version == 2 && PacketOf(f, data) == p {
      EncodingRead(f, pad, data, true);
    }
  }

  /** The declared CSRCs are there. */
  predicate CsrcsFit(data: bytes) {
    |data| >= 12 && 12 + 4 * (data[0] % 16) <= |data|
  }

  /** Where the header ends, if a declared extension is all there. */
  function HeaderEnd(data: bytes): Option<nat>
    requires CsrcsFit(data)
  {
    var at := 12 + 4 * (data[0] % 16);
    if data[0] / 16 % 2 == 0 then Some(at)
    else if at + 4 <= |data| && at + 4 + 4 * U16(data, at + 2) <= |data| then Some(at + 4 + 4 * U16(data, at + 2))
    else None
  }

  /** Which error the strict parser raises over each buffer it refuses. */
  lemma StrictErrors(data: bytes)
    ensures var r, versioned := Rtp(data, true), |data| >= 12 && data[0] / 64 == 2;
            && (r == Failure(InvalidVersion) <==> |data| >= 12 && !versioned)
            && (r == Failure(BufferTooShort) <==> |data| < 12 || (versioned && !CsrcsFit(data)))
            && (r == Failure(ExtensionError) <==> versioned && CsrcsFit(data) && HeaderEnd(data).None?)
            && (r == Failure(PaddingError) <==>
                && versioned && CsrcsFit(data) && HeaderEnd(data).Some? && data[0] / 32 % 2 == 1
                && !(0 < data[|data| - 1] <= |data| - HeaderEnd(data).value))
  {
    hide UnBE, U16, U32, UnWords;
  }

  /** Whatever is read leniently can be built again: every version, count and padding fits. */
  lemma LenientFieldsFit(data: bytes)
    requires |data| >= 12
    ensures Rtp(data, false).Success? && Valid(FieldsOf(Rtp(data, false).value))
  {
    hide UnBE, UnWords, U16, U32;
  }
}
