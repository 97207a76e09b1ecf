/** The RTP packet parser, strict and lenient (src/rtpkit/parser/rtp_parser.py). */
module RtpParser {
  import opened Bytes
  import opened Wrappers
  import opened RtpModel

  const FIXED_HEADER_SIZE := 12

  datatype RtpError = BufferTooShort | InvalidVersion | ExtensionError | PaddingError

  /** The CSRC count: the declared one, or in lenient mode as many as the buffer holds. */
  function CsrcCount(data: bytes, strict: bool): (r: Result<nat, RtpError>)
    requires |data| >= 12
    ensures r.Success? ==> 12 + 4 * r.value <= |data|
  {
    var cc := data[0] % 16;
    if 12 + cc * 4 <= |data| then Success(cc)
    else if strict then Failure(BufferTooShort) else Success((|data| - 12) / 4)
  }

  /** The header extension at `offset`, if one is declared and present. */
  function ExtensionAt(data: bytes, offset: nat, strict: bool): (r: Result<Option<HeaderExtension>, RtpError>)
    requires |data| >= 12 && offset <= |data|
    ensures r.Success? && r.value.Some? ==>
      var ext := r.value.value;
      0 <= ext.length && |ext.data| == 4 * ext.length && Fits16(ext.profile) && offset + 4 + |ext.data| <= |data|
  {
    if data[0] / 16 % 2 == 0 then Success(None)
    else if offset + 4 > |data| || offset + 4 + U16(data, offset + 2) * 4 > |data| then
      if strict then Failure(ExtensionError) else Success(None)
    else
      var words := U16(data, offset + 2);
      Success(Some(HeaderExtension(U16(data, offset), words, data[offset + 4..offset + 4 + words * 4])))
  }

  function AfterExtension(offset: nat, ext: Option<HeaderExtension>): int {
    if ext.None? then offset else offset + 4 + |ext.value.data|
  }

  /** The padding count in the last byte, if padding is declared and the count makes sense. */
  function PaddingAt(data: bytes, offset: nat, strict: bool): (r: Result<nat, RtpError>)
    requires |data| >= 12 && offset <= |data|
    ensures r.Success? ==> offset + r.value <= |data|
  {
    if data[0] / 32 % 2 == 0 then Success(0)
    else
      var last := data[|data| - 1];
      if offset == |data| || last == 0 || last > |data| - offset then
        if strict then Failure(PaddingError) else Success(0)
      else Success(last)
  }

  /** What `parse_rtp` and `parse_rtp_lenient` return or raise. */
  function Rtp(data: bytes, strict: bool): Result<RtpPacket, RtpError> {
    if |data| < FIXED_HEADER_SIZE then Failure(BufferTooShort)
    else if strict && data[0] / 64 != 2 then Failure(InvalidVersion)
    else
      var cc :- CsrcCount(data, strict);
      var csrcEnd := 12 + 4 * cc;
      var ext :- ExtensionAt(data, csrcEnd, strict);
      var offset := AfterExtension(csrcEnd, ext);
      var padding :- PaddingAt(data, offset, strict);
      Success(RtpPacket(
        data[0] / 64, data[0] / 32 % 2 == 1, data[0] / 16 % 2 == 1, data[1] / 128 == 1, data[1] % 128,
        U16(data, 2), U32(data, 4), U32(data, 8), UnWords(data[12..], cc),
        ext, data[offset..|data| - padding], padding, data))
  }

  method ParseExtension(data: bytes, offset: nat, strict: bool)
    returns (r: Result<Option<HeaderExtension>, RtpError>)
    requires |data| >= 12 && offset <= |data|
    ensures r == ExtensionAt(data, offset, strict)
  {
    var extensionFlag := data[0] / 16 % 2 == 1;
    var headerExt: Option<HeaderExtension> := None;
    if extensionFlag {
      var extHeaderEnd := offset + 4;
      if extHeaderEnd > |data| {
        if strict {
          return Failure(ExtensionError);
        }
      } else {
        var extProfile, extWordLen := U16(data, offset), U16(data, offset + 2);
        var extDataEnd := extHeaderEnd + extWordLen * 4;
        if extDataEnd > |data| {
          if strict {
            return Failure(ExtensionError);
          }
        } else {
          headerExt := Some(HeaderExtension(extProfile, extWordLen, data[extHeaderEnd..extDataEnd]));
        }
      }
    }
    return Success(headerExt);
  }

  method ParsePadding(data: bytes, offset: nat, strict: bool) returns (r: Result<nat, RtpError>)
    requires |data| >= 12 && offset <= |data|
    ensures r == PaddingAt(data, offset, strict)
  {
    var paddingFlag := data[0] / 32 % 2 == 1;
    var paddingSize := 0;
    if paddingFlag {
      var available := |data| - offset;
      if available < 1 {
        if strict {
          return Failure(PaddingError);
        }
      } else {
        var padCount := data[|data| - 1];
        if padCount == 0 {
          if strict {
            return Failure(PaddingError);
          }
        } else if padCount > available {
          if strict {
            return Failure(PaddingError);
          }
        } else {
          paddingSize := padCount;
        }
      }
    }
    return Success(paddingSize);
  }

  method Parse(data: bytes, strict: bool) returns (r: Result<RtpPacket, RtpError>)
    ensures r == Rtp(data, strict)
  {
    hide U16, U32, UnWords, ExtensionAt, PaddingAt;
    var bufLen := |data|;
    if bufLen < FIXED_HEADER_SIZE {
      return Failure(BufferTooShort);
    }
    var version, paddingFlag, extensionFlag := data[0] / 64, data[0] / 32 % 2 == 1, data[0] / 16 % 2 == 1;
    var cc: nat := data[0] % 16;
    var marker, payloadType := data[1] / 128 == 1, data[1] % 128;
    var number, timestamp, ssrc := U16(data, 2), U32(data, 4), U32(data, 8);

    if version != 2 && strict {
      return Failure(InvalidVersion);
    }

    var csrcEnd := FIXED_HEADER_SIZE + cc * 4;
    if csrcEnd > bufLen {
      if strict {
        return Failure(BufferTooShort);
      }
      cc := (bufLen - FIXED_HEADER_SIZE) / 4;
      csrcEnd := FIXED_HEADER_SIZE + cc * 4;
    }
    var csrc := UnWords(data[12..], cc);

    var headerExt :- ParseExtension(data, csrcEnd, strict);
    var offset := AfterExtension(csrcEnd, headerExt);
    var paddingSize :- ParsePadding(data, offset, strict);
    return Success(RtpPacket(version, paddingFlag, extensionFlag, marker, payloadType, number, timestamp, ssrc,
                             csrc, headerExt, data[offset..bufLen - paddingSize], paddingSize, data));
  }

  // ---------------------------------------------------------------- laws

  /** How many CSRCs lenient parsing keeps: the declared number, or as many whole ones as are there. */
  function Kept(data: bytes): (n: nat)
    requires |data| >= 12
    ensures n <= data[0] % 16 && 12 + 4 * n <= |data|
    ensures n < data[0] % 16 ==> |data| < 12 + 4 * (n + 1)
  {
    if 12 + data[0] % 16 * 4 <= |data| then data[0] % 16 else (|data| - 12) / 4
  }

  /** Lenient parsing reads the fixed header of section 5.1 of RFC 3550 as it stands, whatever its version. */
  lemma LenientHeader(data: bytes)
    requires |data| >= 12
    ensures Rtp(data, false).Success?
    ensures var p := Rtp(data, false).value;
            && p.version == data[0] / 64 && (p.padding <==> data[0] / 32 % 2 == 1)
            && (p.extension <==> data[0] / 16 % 2 == 1)
            && (p.marker <==> data[1] / 128 == 1) && p.payloadType == data[1] % 128
            && p.sequenceNumber == U16(data, 2) && p.timestamp == U32(data, 4) && p.ssrc == U32(data, 8)
            && p.raw == data
  {
    hide UnBE, U16, U32, UnWords;
  }

  /** Lenient parsing keeps the CSRCs that fit. */
  lemma LenientCsrcs(data: bytes)
    requires |data| >= 12
    ensures Rtp(data, false).Success?
    ensures var csrc := Rtp(data, false).value.csrc;
            |csrc| == Kept(data) && forall i :: 0 <= i < |csrc| ==> csrc[i] == U32(data, 12 + 4 * i)
  {
    hide UnBE, U16, U32, UnWords;
    var k := Kept(data);
    WordsAt(data[12..], k);
    forall i | 0 <= i < k ensures U32(data[12..], 4 * i) == U32(data, 12 + 4 * i) {
      SameWord(data[12..], 4 * i, data, 12 + 4 * i);
    }
  }

  /** Lenient parsing keeps a declared extension when all of it is there, and else takes its bytes for payload. */
  lemma LenientExtension(data: bytes)
    requires |data| >= 12
    ensures var at := 12 + 4 * Kept(data);
            Rtp(data, false).Success? && Rtp(data, false).value.headerExtension ==
              if data[0] / 16 % 2 == 1 && at + 4 <= |data| && at + 4 + 4 * U16(data, at + 2) <= |data| then
                Some(HeaderExtension(U16(data, at), U16(data, at + 2), data[at + 4..at + 4 + 4 * U16(data, at + 2)]))
              else None
  {
    hide UnBE, U16, U32, UnWords;
  }

  /** Lenient parsing believes a padding count only if it is positive and leaves the header alone. */
  lemma LenientPadding(data: bytes)
    requires |data| >= 12
    ensures Rtp(data, false).Success?
    ensures var p := Rtp(data, false).value;
            var left, count := |data| - p.HeaderSize(), data[|data| - 1];
            && 0 <= left
            && p.paddingSize == (if data[0] / 32 % 2 == 1 && 0 < count <= left then count else 0)
            && p.payload == data[|data| - left..|data| - p.paddingSize]
  {
    hide UnBE, U16, U32, UnWords;
  }

  lemma SameWord(s: bytes, i: nat, t: bytes, j: nat)
    requires i + 4 <= |s| && j + 4 <= |t| && s[i..i + 4] == t[j..j + 4]
    ensures U32(s, i) == U32(t, j)
  {
  }

  lemma {:induction false} WordsAt(s: bytes, k: nat)
    requires 4 * k <= |s|
    ensures forall i :: 0 <= i < k ==> UnWords(s, k)[i] == U32(s, 4 * i)
    decreases k
  {
    hide U32;
    if k > 0 {
      WordsAt(s[4..], k - 1);
      forall i | 0 < i < k ensures UnWords(s, k)[i] == U32(s, 4 * i) {
        SameWord(s[4..], 4 * (i - 1), s, 4 * i);
      }
    }
  }

  /** In either mode the header, payload and padding account for every byte of the buffer. */
  lemma SizesAddUp(data: bytes, strict: bool)
    requires Rtp(data, strict).Success?
    ensures var p := Rtp(data, strict).value;
            p.HeaderSize() + |p.payload| + p.paddingSize == p.TotalSize() == |data|
  {
    hide UnBE, UnWords;
  }

  /** Lenient parsing accepts every buffer of 12 bytes, and agrees with strict parsing where that accepts. */
  lemma LenientAcceptsMore(data: bytes)
    ensures Rtp(data, false).Success? <==> |data| >= 12
    ensures Rtp(data, true).Success? ==> Rtp(data, false) == Rtp(data, true)
  {
    hide UnBE, UnWords;
  }
}
