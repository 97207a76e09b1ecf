/** The five RTCP packet shapes of section 6 of RFC 3550, and the codec's error classes. */
module RtcpModel {
  import opened Bytes
  import opened Wrappers

  datatype SenderInfo = SenderInfo(
    ntpSeconds: int, ntpFraction: int, rtpTimestamp: int, packetCount: int, octetCount: int)

  datatype ReportBlock = ReportBlock(
    ssrc: int, fractionLost: int, cumulativeLost: int, extendedHighest: int,
    jitter: int, lastSr: int, delaySinceLastSr: int)

  datatype SdesItem = SdesItem(kind: int, text: bytes)

  datatype SdesChunk = SdesChunk(ssrc: int, items: seq<SdesItem>)

  datatype RtcpPacket =
    | SenderReport(ssrc: int, info: SenderInfo, blocks: seq<ReportBlock>, padding: int)
    | ReceiverReport(ssrc: int, blocks: seq<ReportBlock>, padding: int)
    | SourceDescription(chunks: seq<SdesChunk>, padding: int)
    | Goodbye(sources: seq<int>, reason: Option<bytes>, padding: int)
    | ApplicationDefined(subtype: int, ssrc: int, name: string, data: bytes, padding: int)

  const SR := 200
  const RR := 201
  const SDES := 202
  const BYE := 203
  const APP := 204

  /** `StructError` is the bare error of the `struct` module, which the builder lets escape. */
  datatype RtcpError =
    | BufferTooShort
    | InvalidVersion
    | LengthMismatch
    | MalformedPacket
    | BuildError
    | StructError

  const REPLACEMENT: char := '\U{FFFD}'

  /** `bytes.decode("ascii", errors="replace")`. */
  function DecodeAscii(s: bytes): (t: string)
    ensures |t| == |s|
  {
    seq(|s|, i requires 0 <= i < |s| => if s[i] < 128 then s[i] as char else REPLACEMENT)
  }

  /** Every byte stands for its ASCII character, or for the replacement character when it has none. */
  lemma DecodedAt(s: bytes, i: nat)
    requires i < |s|
    ensures DecodeAscii(s)[i] == if s[i] < 128 then s[i] as char else '\U{FFFD}'
  {
  }

  predicate IsAscii(t: string) {
    forall i :: 0 <= i < |t| ==> t[i] < 128 as char
  }

  /** `str.encode("ascii")` of a string known to be ASCII. */
  function EncodeAscii(t: string): (s: bytes)
    requires IsAscii(t)
    ensures |s| == |t|
  {
    seq(|t|, i requires 0 <= i < |t| => t[i] as int)
  }

  lemma AsciiRoundTrip(t: string)
    requires IsAscii(t)
    ensures DecodeAscii(EncodeAscii(t)) == t
  {
  }

  /** Decoding is lossless exactly when the bytes are ASCII. */
  lemma AsciiDecoded(s: bytes)
    ensures IsAscii(DecodeAscii(s)) <==> forall i :: 0 <= i < |s| ==> s[i] < 128
    ensures IsAscii(DecodeAscii(s)) ==> EncodeAscii(DecodeAscii(s)) == s
  {
    var t := DecodeAscii(s);
    if IsAscii(t) {
      forall i | 0 <= i < |s| ensures s[i] < 128 {
        assert t[i] < 128 as char;
      }
    }
  }
}
