/** AAC frames in ADTS form, as `protocol/hls/parser/aac` writes them. */
module Adts {
  import opened Bytes

  const HEADER_LEN := 7

  datatype Config = Config(objectType: byte, sampleRate: byte, channel: byte)

  /** The three fields of an AudioSpecificConfig that the header needs. */
  function SpecificInfo(src: seq<byte>): Result<Config>
  {
    if |src| < 2 then Err(Invalid)
    else Ok(Config(src[0] / 8, src[0] % 8 * 2 + src[1] / 128, src[1] / 8 % 16))
  }

  /** Object type, frequency index and channels in 5, 4 and 4 bits (ISO/IEC 14496-3, section 1.6.2.1). */
  lemma InfoExact(o: nat, r: nat, c: nat, d: nat, rest: seq<byte>)
    requires o < 32 && r < 16 && c < 16 && d < 8
    ensures SpecificInfo([o * 8 + r / 2, r % 2 * 128 + c * 8 + d] + rest) == Ok(Config(o, r, c))
  {
    var src := [o * 8 + r / 2, r % 2 * 128 + c * 8 + d] + rest;
    assert src[0] / 8 == o && src[0] % 8 == r / 2;
    assert src[1] / 128 == r % 2 && src[1] / 8 == r % 2 * 16 + c;
  }

  /** The 16-bit frame length the code computes; the header keeps 13 bits of it. */
  function FrameLen16(n: nat): nat
  { (n % 0x1_0000 + 7) % 0x1_0000 }

  function Header(c: Config, n: nat): (h: seq<byte>)
    requires c.sampleRate < 16
    ensures |h| == HEADER_LEN
  {
    var frameLen := FrameLen16(n);
    [0xff, 0xf1,
     (c.objectType as int + 255) * 64 % 256 + c.sampleRate * 4,
     c.channel as int * 64 % 256 + frameLen * 8 % 0x1_0000 / 0x4000,
     frameLen * 32 % 0x1_0000 / 256,
     frameLen % 8 * 32 + 0x1f,
     0xfc]
  }

  function Frame(c: Config, data: seq<byte>): seq<byte>
    requires c.sampleRate < 16
  { Header(c, |data|) + data }

  // ---- a receiver ----

  function Length(h: seq<byte>): nat
    requires |h| >= HEADER_LEN
  { h[3] as int % 4 * 2048 + h[4] as int * 8 + h[5] / 32 }

  function Fields(h: seq<byte>): Config
    requires |h| >= HEADER_LEN
  { Config(h[2] / 64 + 1, h[2] / 4 % 16, h[2] % 2 * 4 + h[3] / 64) }

  /** The sync word, MPEG-4, layer 0, no checksum, a fullness of all ones and one raw block. */
  predicate Synced(h: seq<byte>)
    requires |h| >= HEADER_LEN
  { h[0] == 0xff && h[1] == 0xf1 && h[2] / 2 % 2 == 0 && h[5] % 32 == 0x1f && h[6] == 0xfc }

  /** Cuts a stream at the frame lengths it announces. */
  function Split(s: seq<byte>): seq<seq<byte>>
    decreases |s|
  {
    if |s| < HEADER_LEN then []
    else
      var n := Length(s);
      if n < HEADER_LEN || n > |s| then [] else [s[HEADER_LEN..n]] + Split(s[n..])
  }

  lemma LengthIs(c: Config, n: nat)
    requires c.sampleRate < 16
    ensures Length(Header(c, n)) == FrameLen16(n) % 8192
  {
    var f := FrameLen16(n);
    TopBits(f);
    MiddleBits(f);
    LowFields(c.channel as int * 64 % 256, f % 8192 / 2048, f % 8);
    Digits(f);
  }

  lemma LowFields(channel: nat, top: nat, low: nat)
    requires channel % 64 == 0 && top < 4 && low < 8
    ensures (channel + top) % 4 == top && (low * 32 + 0x1f) / 32 == low
  {}

  lemma TopBits(f: nat)
    requires f < 0x1_0000
    ensures f * 8 % 0x1_0000 / 0x4000 == f % 8192 / 2048 < 4
  { ModUnique(f * 8, 0x1_0000, f / 8192, f % 8192 * 8); }

  lemma MiddleBits(f: nat)
    requires f < 0x1_0000
    ensures f * 32 % 0x1_0000 / 256 == f % 2048 / 8 < 256
  { ModUnique(f * 32, 0x1_0000, f / 2048, f % 2048 * 32); }

  lemma Digits(f: nat)
    ensures f % 8192 == f % 8192 / 2048 * 2048 + f % 2048 / 8 * 8 + f % 8
  {
    var a, b := f % 8192, f % 2048;
    ModUnique(f, 2048, f / 8192 * 4 + a / 2048, a % 2048);
    ModUnique(f, 8, f / 2048 * 256 + b / 8, b % 8);
  }

  /** The announced length is the real one exactly for frames of at most 8184 bytes. */
  lemma LengthExact(c: Config, n: nat)
    requires c.sampleRate < 16
    ensures Length(Header(c, n)) == (n + 7) % 8192
    ensures Length(Header(c, n)) == n + 7 <==> n <= 8184
  {
    LengthIs(c, n);
    hide Length, Header;
    var m := n % 0x1_0000 + 7;
    ModUnique(n + 7, 8192, (n / 0x1_0000) * 8 + m / 8192, m % 8192);
    ModUnique(m % 0x1_0000, 8192, m / 8192 - m / 0x1_0000 * 8, m % 8192);
  }

  /** The header carries the configuration exactly for object types 1 to 4 and channel fields up to 3. */
  lemma FieldsExact(c: Config, n: nat)
    requires c.sampleRate < 16 && c.channel < 16 && c.objectType < 32
    ensures Synced(Header(c, n))
    ensures Fields(Header(c, n)) == Config((c.objectType as int + 3) % 4 + 1, c.sampleRate, c.channel % 4)
    ensures Fields(Header(c, n)) == c <==> 1 <= c.objectType <= 4 && c.channel <= 3
  {
    TopBits(FrameLen16(n));
    Profile(c.objectType, c.sampleRate);
    Channel(c.channel, FrameLen16(n) % 8192 / 2048);
    hide FrameLen16;
  }

  lemma Channel(channel: nat, top: nat)
    requires channel < 16 && top < 4
    ensures var b := channel * 64 % 256 + top; b < 256 && b / 64 == channel % 4
  {}

  lemma Profile(o: nat, r: nat)
    requires o < 32 && r < 16
    ensures (o + 255) * 64 % 256 == (o + 255) % 4 * 64
    ensures var b := (o + 255) % 4 * 64 + r * 4; b / 64 == (o + 255) % 4 && b / 4 % 16 == r && b % 2 == 0
  {}

  function Stream(c: Config, frames: seq<seq<byte>>): seq<byte>
    requires c.sampleRate < 16
  { if frames == [] then [] else Frame(c, frames[0]) + Stream(c, frames[1..]) }

  lemma ConsUnit<T>(s: seq<T>)
    requires s != []
    ensures [s[0]] + s[1..] == s
  {}

  lemma SplitFrame(c: Config, data: seq<byte>, rest: seq<byte>)
    requires c.sampleRate < 16 && |data| <= 8184
    ensures Split(Frame(c, data) + rest) == [data] + Split(rest)
  {
    var s := Frame(c, data) + rest;
    LengthExact(c, |data|);
    assert s[..HEADER_LEN] == Header(c, |data|);
    assert Length(s) == Length(Header(c, |data|)) by { assert s[3] == Header(c, |data|)[3]; }
    assert s[HEADER_LEN..HEADER_LEN + |data|] == data && s[HEADER_LEN + |data|..] == rest;
  }

  /** Any list of frames of at most 8184 bytes is recovered from its stream. */
  lemma {:induction false} SplitStream(c: Config, frames: seq<seq<byte>>)
    requires c.sampleRate < 16 && forall i | 0 <= i < |frames| :: |frames[i]| <= 8184
    ensures Split(Stream(c, frames)) == frames
  {
    if frames != [] {
      SplitFrame(c, frames[0], Stream(c, frames[1..]));
      SplitStream(c, frames[1..]);
      ConsUnit(frames);
    }
  }

  class Parser {
    var gettedSpecific: bool
    var config: Config
    const adtsHeader: array<byte>

    ghost predicate Valid()
      reads this
    { adtsHeader.Length == HEADER_LEN && config.sampleRate < 16 && config.channel < 16 && config.objectType < 32 }

    constructor ()
      ensures Valid() && fresh(adtsHeader) && !gettedSpecific && config == Config(0, 0, 0)
    {
      gettedSpecific, config, adtsHeader := false, Config(0, 0, 0), new byte[HEADER_LEN];
    }

    method ParseSpecificInfo(src: seq<byte>) returns (r: Result<()>)
      requires Valid()
      modifies this`gettedSpecific, this`config
      ensures Valid()
      ensures match SpecificInfo(src)
              case Ok(c) => r.Ok? && gettedSpecific && config == c
              case Err(_) => r.Err? && gettedSpecific == old(gettedSpecific) && config == old(config)
    {
      if |src| < 2 { return Err(Invalid); }
      gettedSpecific := true;
      config := Config(src[0] / 8, src[0] % 8 * 2 + src[1] / 128, src[1] / 8 % 16);
      r := Ok(());
    }

    /** The sync word and the profile; the header is built in the array that all frames share. */
    method FillProfile()
      requires Valid()
      modifies adtsHeader
      ensures adtsHeader[..3] == [0xff, 0xf1, (config.objectType as int + 255) * 64 % 256 + config.sampleRate * 4]
    {
      Profile(config.objectType, config.sampleRate);
      adtsHeader[0] := 0xff;
      adtsHeader[1] := 0xf1;
      adtsHeader[2] := (config.objectType as int + 255) * 64 % 256;
      adtsHeader[2] := adtsHeader[2] + config.sampleRate * 4;
    }

    /** The channels and the frame length. */
    method FillLength(frameLen: nat)
      requires Valid() && frameLen < 0x1_0000
      modifies adtsHeader
      ensures adtsHeader[..3] == old(adtsHeader[..3])
      ensures adtsHeader[3..] == [config.channel as int * 64 % 256 + frameLen * 8 % 0x1_0000 / 0x4000,
                                  frameLen * 32 % 0x1_0000 / 256, frameLen % 8 * 32 + 0x1f, 0xfc]
    {
      TopBits(frameLen);
      MiddleBits(frameLen);
      Channel(config.channel, frameLen % 8192 / 2048);
      adtsHeader[3] := config.channel as int * 64 % 256;
      adtsHeader[3] := adtsHeader[3] + frameLen * 8 % 0x1_0000 / 0x4000;
      adtsHeader[4] := frameLen * 32 % 0x1_0000 / 256;
      adtsHeader[5] := frameLen % 8 * 32;
      adtsHeader[5] := adtsHeader[5] + 0x1f;
      adtsHeader[6] := 0xfc;
    }

    method WriteAdts(src: seq<byte>) returns (r: Result<()>, out: seq<byte>)
      requires Valid()
      modifies adtsHeader
      ensures r.Ok? <==> src != [] && gettedSpecific
      ensures r.Ok? ==> out == Frame(config, src)
    {
      out := [];
      if |src| <= 0 || !gettedSpecific { return Err(Invalid), out; }
      FillProfile();
      FillLength(FrameLen16(|src|));
      assert adtsHeader[..] == adtsHeader[..3] + adtsHeader[3..] == Header(config, |src|);
      EmptyUnit(adtsHeader[..]);
      out := out + adtsHeader[..];
      out := out + src;
      r := Ok(());
    }
  }
}
