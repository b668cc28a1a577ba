/** Media packets as every part of the server passes them on (`av/pack.go`). */
module Av {
  import opened Bytes

  const TAG_AUDIO := 8
  const TAG_VIDEO := 9
  const TAG_SCRIPT := 18

  /** The flags of a packet may overlap; `ts` is the decoding time stamp in milliseconds. */
  datatype Packet = Packet(isAudio: bool, isVideo: bool, isMetadata: bool, ts: u32, streamId: u32, data: seq<byte>) {
    /** Video wins over metadata, and what is neither counts as audio. */
    function Type(): byte
    { if isVideo then TAG_VIDEO else if isMetadata then TAG_SCRIPT else TAG_AUDIO }
  }
}
