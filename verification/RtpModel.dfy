/** The RTP packet (src/rtpkit/model/packet.py) and its header extension (src/rtpkit/model/extension.py). */
module RtpModel {
  import opened Bytes
  import opened Wrappers

  datatype HeaderExtension = HeaderExtension(profile: int, length: int, data: bytes)

  /** `raw` is the buffer the packet was read from. */
  datatype RtpPacket = RtpPacket(
    version: int, padding: bool, extension: bool, marker: bool, payloadType: int,
    sequenceNumber: u16, timestamp: u32, ssrc: u32, csrc: seq<u32>,
    headerExtension: Option<HeaderExtension>, payload: bytes, paddingSize: int, raw: bytes)
  {
    function HeaderSize(): int {
      12 + |csrc| * 4 + if headerExtension.Some? then 4 + headerExtension.value.length * 4 else 0
    }

    function TotalSize(): int {
      |raw|
    }
  }
}
