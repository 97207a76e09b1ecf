/** The fluent RTP packet builder (src/rtpkit/builder/rtp_builder.py). */
module RtpBuilder {
  import opened Bytes
  import opened Wrappers
  import opened RtpModel
  import opened RtpExtension
  import RtpParser

  const MAX_CSRC := 15

  /** What a builder has been told; an extension is its profile and its data. */
  datatype Fields = Fields(
    version: int, padding: int, marker: bool, payloadType: int, number: int, timestamp: int, ssrc: int,
    csrc: seq<int>, ext: Option<(int, bytes)>, payload: bytes)

  predicate Valid(f: Fields) {
    && 0 <= f.version <= 3
    && 0 <= f.payloadType <= 127
    && Fits16(f.number) && Fits32(f.timestamp) && Fits32(f.ssrc)
    && |f.csrc| <= MAX_CSRC && (forall i :: 0 <= i < |f.csrc| ==> Fits32(f.csrc[i]))
    && (f.ext.Some? ==>
        Fits16(f.ext.value.0) && |f.ext.value.1| % 4 == 0 && Fits16(|f.ext.value.1| / 4))
    && 0 <= f.padding <= 255
  }

  function FixedHeader(f: Fields): (s: bytes)
    requires Valid(f)
    ensures |s| == 12
  {
    var byte0 := f.version * 64 + (if f.padding > 0 then 32 else 0) + (if f.ext.Some? then 16 else 0) + |f.csrc|;
    var byte1 := (if f.marker then 128 else 0) + f.payloadType;
    [byte0, byte1] + BE(f.number, 2) + BE(f.timestamp, 4) + BE(f.ssrc, 4)
  }

  function ExtensionBytes(ext: Option<(int, bytes)>): bytes
    requires ext.Some? ==> Fits16(ext.value.0) && Fits16(|ext.value.1| / 4)
  {
    if ext.None? then [] else BE(ext.value.0, 2) + BE(|ext.value.1| / 4, 2) + ext.value.1
  }

  function PaddingBytes(padding: int): (s: bytes)
    requires 0 <= padding <= 255
    ensures |s| == padding
  {
    if padding == 0 then [] else Zeros(padding - 1) + [padding]
  }

  /** The packet of valid fields. */
  function Encoded(f: Fields): bytes
    requires Valid(f)
  {
    FixedHeader(f) + Words(f.csrc) + ExtensionBytes(f.ext) + f.payload + PaddingBytes(f.padding)
  }

  /** What building with these fields returns or raises. */
  function Built(f: Fields): Result<bytes, RtpBuildError> {
    if Valid(f) then Success(Encoded(f)) else Failure(RtpBuildError)
  }

  class Builder {
    var version: int
    var padding: int
    var marker: bool
    var payloadType: int
    var number: int
    var timestamp: int
    var ssrc: int
    var csrc: seq<int>
    var extProfile: Option<int>
    var extData: bytes
    var payload: bytes

    ghost function Value(): Fields
      reads this
    {
      Fields(version, padding, marker, payloadType, number, timestamp, ssrc, csrc,
             if extProfile.Some? then Some((extProfile.value, extData)) else None, payload)
    }

    constructor ()
      ensures Value() == Fields(2, 0, false, 0, 0, 0, 0, [], None, [])
    {
      version, padding, marker, payloadType, number, timestamp, ssrc := 2, 0, false, 0, 0, 0, 0;
      csrc, extProfile, extData, payload := [], None, [], [];
    }

    method WithVersion(version: int)
      modifies this`version
      ensures Value() == old(Value()).(version := version)
    {
      this.version := version;
    }

    method WithMarker(marker: bool)
      modifies this`marker
      ensures Value() == old(Value()).(marker := marker)
    {
      this.marker := marker;
    }

    method WithPayloadType(payloadType: int)
      modifies this`payloadType
      ensures Value() == old(Value()).(payloadType := payloadType)
    {
      this.payloadType := payloadType;
    }

    method WithSequenceNumber(number: int)
      modifies this`number
      ensures Value() == old(Value()).(number := number)
    {
      this.number := number;
    }

    method WithTimestamp(timestamp: int)
      modifies this`timestamp
      ensures Value() == old(Value()).(timestamp := timestamp)
    {
      this.timestamp := timestamp;
    }

    method WithSsrc(ssrc: int)
      modifies this`ssrc
      ensures Value() == old(Value()).(ssrc := ssrc)
    {
      this.ssrc := ssrc;
    }

    method WithCsrc(csrc: seq<int>)
      modifies this`csrc
      ensures Value() == old(Value()).(csrc := csrc)
    {
      this.csrc := csrc;
    }

    method WithExtension(profile: int, data: bytes)
      modifies this`extProfile, this`extData
      ensures Value() == old(Value()).(ext := Some((profile, data)))
    {
      extProfile := Some(profile);
      extData := data;
    }

    /** An element list that does not fit raises and leaves the builder as it was. */
    method WithExtensionElements(elements: seq<Element>, profile: Profile) returns (r: Result<(), RtpBuildError>)
      modifies this`extProfile, this`extData
      ensures r.Success? <==> BuildExtension(elements, profile).Success?
      ensures r.Success? ==>
        var ext := BuildExtension(elements, profile).value;
        Value() == old(Value()).(ext := Some((ext.profile, ext.data)))
      ensures r.Failure? ==> Value() == old(Value())
    {
      var ext :- BuildHeaderExtension(elements, profile);
      WithExtension(ext.profile, ext.data);
      return Success(());
    }

    method WithPayload(payload: bytes)
      modifies this`payload
      ensures Value() == old(Value()).(payload := payload)
    {
      this.payload := payload;
    }

    method WithPadding(count: int)
      modifies this`padding
      ensures Value() == old(Value()).(padding := count)
    {
      padding := count;
    }

    method Validate() returns (ok: bool)
      ensures ok == Valid(Value())
    {
      if !(0 <= version <= 3) { return false; }
      if !(0 <= payloadType <= 127) { return false; }
      if !(0 <= number <= 0xFFFF) { return false; }
      if !(0 <= timestamp <= 0xFFFF_FFFF) { return false; }
      if !(0 <= ssrc <= 0xFFFF_FFFF) { return false; }
      if |csrc| > MAX_CSRC { return false; }
      for i := 0 to |csrc|
        invariant forall k :: 0 <= k < i ==> Fits32(csrc[k])
      {
        if !(0 <= csrc[i] <= 0xFFFF_FFFF) { return false; }
      }
      if extProfile.Some? {
        if !(0 <= extProfile.value <= 0xFFFF) { return false; }
        if |extData| % 4 != 0 { return false; }
        if |extData| / 4 > 0xFFFF { return false; }
      }
      if padding != 0 && !(1 <= padding <= 255) { return false; }
      return true;
    }

    method Build() returns (r: Result<bytes, RtpBuildError>)
      ensures r == Built(Value())
    {
      hide Words, BE;
      var ok := Validate();
      if !ok {
        return Failure(RtpBuildError);
      }
      var cc, hasExt, hasPad := |csrc|, extProfile.Some?, padding > 0;
      var byte0 := version * 64 + (if hasPad then 32 else 0) + (if hasExt then 16 else 0) + cc;
      var byte1 := (if marker then 128 else 0) + payloadType;
      var parts := [byte0, byte1] + BE(number, 2) + BE(timestamp, 4) + BE(ssrc, 4);
      assert parts == FixedHeader(Value());
      parts := parts + Words(csrc);
      if hasExt {
        parts := parts + (BE(extProfile.value, 2) + BE(|extData| / 4, 2) + extData);
      }
      assert parts == FixedHeader(Value()) + Words(csrc) + ExtensionBytes(Value().ext);
      parts := parts + payload;
      if hasPad {
        parts := parts + (Zeros(padding - 1) + [padding]);
      }
      assert parts == Encoded(Value());
      return Success(parts);
    }

    /** Build, then parse strictly what was built. */
    method BuildPacket() returns (r: Result<Result<RtpPacket, RtpParser.RtpError>, RtpBuildError>)
      ensures Built(Value()).Success? ==>
        r == Success(RtpParser.Rtp(Built(Value()).value, true))
      ensures Built(Value()).Failure? ==> r == Failure(RtpBuildError)
    {
      var s :- Build();
      var p := RtpParser.Parse(s, true);
      return Success(p);
    }
  }
}
