/** The header of an FLV audio or video tag body (Adobe FLV 10.1, section E.4). */
module FlvTag {
  import opened Bytes

  const SOUND_AAC := 10
  const CODEC_AVC := 7
  const FRAME_KEY := 1
  const FRAME_INTER := 2
  const AAC_SEQHDR := 0
  const AAC_RAW := 1
  const AVC_SEQHDR := 0

  datatype Tag = Tag(
    soundFormat: nat, aacPacketType: nat,
    frameType: nat, codecId: nat, avcPacketType: nat, composition: nat) {
    predicate IsKeyFrame()
    { frameType == FRAME_KEY }

    predicate IsSeq()
    { frameType == FRAME_KEY && avcPacketType == AVC_SEQHDR }
  }

  /** The tag and the number of header bytes. */
  datatype TagRead = TagRead(tag: Tag, n: nat)

  function ParseTag(b: seq<byte>, video: bool): (r: Result<TagRead>)
    ensures r.Ok? ==> r.value.n <= |b| && r.value.tag.composition <= 0xffffff
  { if video then ParseVideo(b) else ParseAudio(b) }

  function ParseAudio(b: seq<byte>): (r: Result<TagRead>)
    ensures r.Ok? ==> r.value.n <= |b| && r.value.tag.composition == 0
  {
    if |b| < 1 then Err(Invalid) else
      var format := b[0] / 16;
      if format != SOUND_AAC then Ok(TagRead(Tag(format, 0, 0, 0, 0, 0), 1))
      else if |b| < 2 then Err(Invalid)
      else Ok(TagRead(Tag(format, b[1], 0, 0, 0, 0), 2))
  }

  function ParseVideo(b: seq<byte>): (r: Result<TagRead>)
    ensures r.Ok? ==> r.value.n <= |b| && r.value.tag.composition <= 0xffffff
  {
    if |b| < 1 then Err(Invalid) else
      var frame, codec := b[0] / 16, b[0] % 16;
      if !((frame == FRAME_INTER || frame == FRAME_KEY) && codec == CODEC_AVC) then
        Ok(TagRead(Tag(0, 0, frame, codec, 0, 0), 1))
      else if |b| < 5 then Err(Invalid)
      else Ok(TagRead(Tag(0, 0, frame, codec, b[1], (b[2] as int * 256 + b[3]) * 256 + b[4]), 5))
  }

  /** The five bytes of an AVC video header as section E.4.3 lays them out. */
  function VideoHeader(t: Tag): seq<byte>
    requires t.frameType < 16 && t.codecId < 16 && t.avcPacketType < 256
  { [t.frameType * 16 + t.codecId, t.avcPacketType] + BE(3, t.composition) }

  /** The AVC headers that are read are exactly those laid out so, for key frames and inter frames. */
  lemma VideoExact(b: seq<byte>, t: Tag)
    ensures
      ParseTag(b, true) == Ok(TagRead(t, 5))
      <==> (t.frameType == 1 || t.frameType == 2) && t.codecId == 7 && t.avcPacketType < 256 &&
           t.composition < 0x100_0000 && t.soundFormat == t.aacPacketType == 0 && |b| >= 5 && b[..5] == VideoHeader(t)
  {
    if |b| >= 5 {
      BE3(b[2], b[3], b[4]);
      if t.composition < 0x100_0000 { BE3Digits(t.composition); }
      assert b[..5] == [b[0], b[1]] + [b[2], b[3], b[4]];
    }
  }

  /**
   Key frames and sequence headers by their bytes: what is no AVC key frame or inter frame has a header of one byte,
   and a key frame of another codec passes for a sequence header.
  */
  lemma KindExact(b: seq<byte>)
    ensures
      var avc := b != [] && b[0] / 16 in {1, 2} && b[0] % 16 == 7;
      ParseTag(b, true).Ok? <==> b != [] && (avc ==> |b| >= 5)
    ensures ParseTag(b, true).Ok? ==>
              var r := ParseTag(b, true).value;
              && r.tag.codecId == b[0] % 16 && (r.tag.IsKeyFrame() <==> b[0] / 16 == 1)
              && (r.tag.IsSeq() <==> b[0] / 16 == 1 && (b[0] % 16 == 7 ==> b[1] == 0))
              && (!(b[0] / 16 in {1, 2} && b[0] % 16 == 7) ==>
                    r == TagRead(Tag(0, 0, b[0] / 16, b[0] % 16, 0, 0), 1))
  {}

  lemma BE3(x: byte, y: byte, z: byte)
    ensures BE(3, (x as int * 256 + y) * 256 + z) == [x, y, z]
  {
    var xy := x as int * 256 + y;
    ModUnique(xy, 256, x, y);
    ModUnique(xy * 256 + z, 256, xy, z);
    assert BE(1, x) == [x] by { assert BE(0, 0) == []; }
    assert BE(2, xy) == BE(1, x) + [y];
    assert BE(3, xy * 256 + z) == BE(2, xy) + [z];
  }

  lemma BE3Digits(v: nat)
    requires v < 0x100_0000
    ensures BE(3, v) == [v / 0x1_0000, v / 256 % 256, v % 256]
  { BE3(v / 0x1_0000, v / 256 % 256, v % 256); }

  /** Sound format, rate, size and type in one byte, then an AAC packet type, as section E.4.2.1 lays them out. */
  function AudioHeader(t: Tag, rate: nat, size: nat, channels: nat): seq<byte>
    requires t.soundFormat < 16 && t.aacPacketType < 256 && rate < 4 && size < 2 && channels < 2
  {
    [t.soundFormat * 16 + rate * 4 + size * 2 + channels]
    + if t.soundFormat == 10 then [t.aacPacketType] else []
  }

  /** The headers that are read are exactly those laid out so, for some rate, size and type. */
  lemma AudioExact(b: seq<byte>, t: Tag, n: nat)
    ensures
      ParseTag(b, false) == Ok(TagRead(t, n))
      <==> t == Tag(t.soundFormat, t.aacPacketType, 0, 0, 0, 0) && t.soundFormat < 16 && t.aacPacketType < 256 &&
           (t.soundFormat != 10 ==> t.aacPacketType == 0) && n <= |b| &&
           exists rate: nat, size: nat, channels: nat | rate < 4 && size < 2 && channels < 2 ::
             b[..n] == AudioHeader(t, rate, size, channels)
  {
    if ParseAudio(b) == Ok(TagRead(t, n)) {
      var low := b[0] % 16;
      assert b[..n] == AudioHeader(t, low / 4, low / 2 % 2, low % 2);
    } else if n <= |b| && t.soundFormat < 16 && t.aacPacketType < 256 {
      forall rate: nat, size: nat, channels: nat | rate < 4 && size < 2 && channels < 2
          && b[..n] == AudioHeader(t, rate, size, channels)
        ensures t != Tag(t.soundFormat, t.aacPacketType, 0, 0, 0, 0)
                || (t.soundFormat != SOUND_AAC && t.aacPacketType != 0)
      {
        assert b[0] == b[..n][0] && (n > 1 ==> b[1] == b[..n][1]);
      }
    }
  }
}
