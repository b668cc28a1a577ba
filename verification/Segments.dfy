/** What the HLS segmenter does with each packet, as a function of its state. */
module Segments {
  import opened Av
  import opened Bytes
  import opened Ts
  import opened Psi
  import FlvTag
  import AnnexB
  import Adts

  const DURATION := 3000
  const MAX_CACHED_FRAMES := 6

  datatype Segment = Segment(seqNum: nat, duration: int, data: seq<byte>)

  /** The segmenter's state; `pushed` lists every segment ever pushed. */
  datatype State = State(
    mux: Counters, patCc: nat, pmtCc: nat,
    open: bool, out: seq<byte>,
    hasFirst: bool, first: int, last: int,
    num: nat, cachePts: nat, buf: seq<byte>,
    frameNum: nat, frameBase: nat,
    avc: seq<byte>, gotAac: bool, aac: Adts.Config,
    pushed: seq<Segment>)

  const INITIAL := State(
    Counters(0, 0), 0, 0, false, [], false, 0, 0, 0, 0, [], 0, 0, [], false, Adts.Config(0, 0, 0), [])

  predicate ValidState(s: State)
  {
    && ValidCounters(s.mux) && s.patCc <= 16 && s.pmtCc <= 16 && s.num < MAX_CACHED_FRAMES
    && s.aac.sampleRate < 16 && s.aac.channel < 16 && s.aac.objectType < 32
  }

  // ---- muxing ----

  function MuxFrame(s: State, f: Frame): (s': State)
    requires ValidState(s)
    ensures ValidState(s')
  { s.(out := s.out + Flatten(MuxPackets(s.mux, f)), mux := MuxCounters(s.mux, f)) }

  /** The cached audio, once there are `limit` frames of it, as one PES. */
  function AudioFrame(s: State): Frame
  { Frame(false, false, s.cachePts / 90 % 0x1_0000_0000, 0, s.buf) }

  function MuxAudio(s: State, limit: nat): (s': State)
    requires ValidState(s.(num := 0))
    ensures limit <= MAX_CACHED_FRAMES ==> ValidState(s')
  { if s.num < limit then s else MuxFrame(s.(num := 0), AudioFrame(s)) }

  /** All cached audio, whatever its number of frames. */
  function FlushAudio(s: State): (s': State)
    requires ValidState(s)
    ensures ValidState(s') && s'.num == 0
  { MuxAudio(s, 1) }

  function CacheAudio(s: State, data: seq<byte>, pts: nat): State
  {
    if s.num == 0 then s.(num := 1, buf := data, cachePts := pts)
    else s.(num := s.num + 1, buf := s.buf + data)
  }

  // ---- cutting ----

  function Begin(s: State): (s': State)
    requires ValidState(s)
    ensures ValidState(s')
  {
    var patCc, pmtCc := if s.patCc > 15 then 0 else s.patCc, if s.pmtCc > 15 then 0 else s.pmtCc;
    s.(out := s.out + PatPacket(patCc) + PmtPacket(pmtCc, FlvTag.SOUND_AAC, true),
       patCc := patCc + 1, pmtCc := pmtCc + 1)
  }

  function Push(s: State): (s': State)
    requires ValidState(s)
    ensures ValidState(s')
  {
    s.(pushed := s.pushed + [Segment(|s.pushed| + 1, s.last - s.first, s.out)], out := [], hasFirst := false)
  }

  /** At a key frame: open the first segment, or close one that is long enough and open the next. */
  function Cut(s: State): (s': State)
    requires ValidState(s)
    ensures ValidState(s')
  {
    if !s.open then Begin(s.(open := true, out := []))
    else if s.last - s.first >= DURATION then Begin(Push(FlushAudio(s)))
    else s
  }

  function Update(s: State, ts: u32): State
  { s.(first := if s.hasFirst then s.first else ts, hasFirst := true, last := ts) }

  // ---- time stamps of audio ----

  const RATES: seq<nat> := [96000, 88200, 64000, 48000, 44100, 32000, 24000, 22050, 16000, 12000, 11025, 8000, 7350]

  function SampleRate(c: Adts.Config): (r: nat)
    ensures r > 0
  { if c.sampleRate <= 12 then RATES[c.sampleRate] else 44100 }

  function Distance(a: nat, b: nat): nat
  { if a >= b then a - b else b - a }

  /** Audio within two milliseconds of the expected time is moved onto it. */
  function Align(s: State, dts: nat): (nat, State)
  {
    var inc := 90000 * 1024 / SampleRate(s.aac);
    var est := s.frameBase + s.frameNum * inc;
    if Distance(est, dts) <= 2 * 90 then (est, s.(frameNum := s.frameNum + 1))
    else (dts, s.(frameNum := 1, frameBase := dts))
  }

  /** The 90 kHz ticks of the 1024 samples of a frame, for each sampling frequency index of MPEG-4 audio. */
  const TICKS: seq<nat> := [960, 1044, 1440, 1920, 2089, 2880, 3840, 4179, 5760, 7680, 8359, 11520, 12538]

  function FrameTicks(c: Adts.Config): nat
  { if c.sampleRate <= 12 then TICKS[c.sampleRate] else 2089 }

  /** An aligned time stamp is within two milliseconds of the packet's, and unchanged if the expected one is not. */
  lemma AlignClose(s: State, dts: nat)
    ensures
      var (pts, s') := Align(s, dts);
      var est := s.frameBase + s.frameNum * FrameTicks(s.aac);
      && Distance(pts, dts) <= 180 && (pts == est || (pts == dts && Distance(est, dts) > 180))
      && s'.frameBase + s'.frameNum * FrameTicks(s.aac) == pts + FrameTicks(s.aac)
  {
    var inc := 90000 * 1024 / SampleRate(s.aac);
    assert inc == FrameTicks(s.aac);
    assert (s.frameNum + 1) * inc == s.frameNum * inc + inc;
    assert 1 * inc == inc;
  }

  // ---- one packet ----

  datatype Outcome = Continue(s: State) | Stop

  function VideoFrame(p: Packet, tag: FlvTag.Tag, data: seq<byte>): Frame
  { Frame(true, tag.IsKeyFrame(), p.ts, tag.composition, data) }

  function TakeVideo(s: State, f: Frame): (s': State)
    requires ValidState(s)
    ensures ValidState(s')
  { MuxFrame(Update(s, f.ts), f) }

  function StepVideo(s: State, p: Packet, tag: FlvTag.Tag, body: seq<byte>): (s': State)
    requires ValidState(s)
    ensures ValidState(s')
  {
    if tag.codecId != FlvTag.CODEC_AVC then s
    else
      var data := AnnexB.Converted(body, tag.IsSeq(), s.avc);
      var s1 := s.(avc := AnnexB.StoredAfter(body, tag.IsSeq(), s.avc));
      if tag.IsSeq() || data.Err? then s1
      else
        var s2 := if tag.IsKeyFrame() then Cut(s1) else s1;
        if !s2.open then s2 else TakeVideo(s2, VideoFrame(p, tag, data.value))
  }

  /** An AAC packet that is no sequence header: raw data in ADTS form, nothing for other packet types. */
  function AacData(s: State, tag: FlvTag.Tag, body: seq<byte>): Result<seq<byte>>
    requires ValidState(s)
  {
    if tag.aacPacketType != FlvTag.AAC_RAW then Ok([])
    else if body == [] || !s.gotAac then Err(Invalid)
    else Ok(Adts.Frame(s.aac, body))
  }

  function TakeAudio(s: State, ts: u32, data: seq<byte>): (s': State)
    requires ValidState(s)
    ensures ValidState(s')
  {
    var (pts, s1) := Align(Update(s, ts), ts * 90);
    MuxAudio(CacheAudio(s1, data, pts), MAX_CACHED_FRAMES)
  }

  function StepAudio(s: State, p: Packet, tag: FlvTag.Tag, body: seq<byte>): (s': State)
    requires ValidState(s)
    ensures ValidState(s')
  {
    if tag.soundFormat != FlvTag.SOUND_AAC then s
    else if tag.aacPacketType == FlvTag.AAC_SEQHDR then
      match Adts.SpecificInfo(body)
      case Ok(c) => s.(gotAac := true, aac := c)
      case Err(_) => s
    else
      var data := AacData(s, tag, body);
      if data.Err? || !s.open then s else TakeAudio(s, p.ts, data.value)
  }

  /** Stop stands for the error that ends the segmenter: a tag whose header cannot be read. */
  function Step(s: State, p: Packet): (o: Outcome)
    requires ValidState(s)
    ensures o.Continue? ==> ValidState(o.s)
  {
    if p.isMetadata then Continue(s) else
      match FlvTag.ParseTag(p.data, p.isVideo)
      case Err(_) => Stop
      case Ok(r) =>
        if r.tag.codecId == FlvTag.CODEC_AVC && |p.data| >= 2 && p.data[0] == 0x17 && p.data[1] == 2 then Continue(s)
        else if p.isVideo then Continue(StepVideo(s, p, r.tag, p.data[r.n..]))
        else Continue(StepAudio(s, p, r.tag, p.data[r.n..]))
  }

  function Run(s: State, ps: seq<Packet>): (s': State)
    requires ValidState(s)
    ensures ValidState(s')
    decreases |ps|
  {
    if ps == [] then s else
      match Step(s, ps[0])
      case Stop => s
      case Continue(s1) => Run(s1, ps[1..])
  }
}
