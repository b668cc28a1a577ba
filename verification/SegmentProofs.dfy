/** Every run of the segmenter: where its segments end, and what a receiver gets from each of them. */
module SegmentProofs {
  import opened Av
  import opened Bytes
  import opened Ts
  import opened Psi
  import opened Receivers
  import opened SegmentCuts
  import opened Segments
  import FlvTag
  import AnnexB
  import Adts

  // ---- the frames behind the bytes ----

  /** The frames muxed into the pushed segments and into the open one. */
  datatype Log = Log(closed: seq<seq<Frame>>, open: seq<Frame>)

  /** The counters that the segment behind these starts with. */
  function StartOf(closed: seq<seq<Frame>>): (c: Counters)
    ensures ValidCounters(c)
  { if closed == [] then Counters(0, 0) else CountersAfter(StartOf(closed[..|closed| - 1]), closed[|closed| - 1]) }

  /** The bytes of a segment: PAT and PMT, whose counters are its number modulo 16, and the packets of its frames. */
  function SegmentData(k: nat, c: Counters, fs: seq<Frame>): seq<byte>
    requires ValidCounters(c)
  { Tables(k % 16) + Flatten(RunPackets(c, fs)) }

  function VideoFrames(fs: seq<Frame>): seq<Frame>
  {
    if fs == [] then [] else
      var f := fs[|fs| - 1];
      VideoFrames(fs[..|fs| - 1]) + if f.video then [f] else []
  }

  /**
   The muxed frames are the video of the group and, but for the pending bytes, its audio; the first one is
   the key frame that began the group.
  */
  predicate Carries(fs: seq<Frame>, pending: seq<byte>, group: seq<Media>)
  {
    && group != [] && IsKey(group[0]) && fs != [] && fs[0] == group[0].frame
    && VideoFrames(fs) == VideoOf(group) && DataOf(AUDIO_PID, fs) + pending == AudioOf(group)
  }

  function AudioFrames(fs: seq<Frame>): seq<Frame>
  {
    if fs == [] then [] else
      var f := fs[|fs| - 1];
      AudioFrames(fs[..|fs| - 1]) + if f.video then [] else [f]
  }

  /** Time stamps of 32 bits that are at most two milliseconds apart. */
  predicate Near(a: u32, b: u32)
  { Distance(a, b) <= 2 || Distance(a, b) >= 0x1_0000_0000 - 2 }

  /** One PES with the audio of some packets, stamped as the first of them. */
  predicate Packs(f: Frame, ms: seq<Media>)
  { ms != [] && f == Frame(false, false, f.ts, 0, AudioOf(ms)) && Near(f.ts, Stamp(ms[0])) }

  predicate Batched(fs: seq<Frame>, ms: seq<Media>)
  { 6 * |fs| <= |ms| && forall k | 0 <= k < |fs| :: Packs(fs[k], ms[6 * k..6 * k + 6]) }

  /** Six packets make a PES of audio, and so do those left when the segment is closed. */
  predicate Batches(fs: seq<Frame>, ms: seq<Media>)
  {
    var n := |ms| / 6;
    && |fs| == (|ms| + 5) / 6 && Batched(fs[..n], ms)
    && (|fs| > n ==> Packs(fs[n], ms[6 * n..]))
  }

  /** The PES so far have six packets each, and the others are cached. */
  predicate Batching(s: State, fs: seq<Frame>, ms: seq<Media>)
  {
    var n := 6 * |fs|;
    && Batched(fs, ms) && |ms| == n + s.num
    && (s.num > 0 ==> s.buf == AudioOf(ms[n..]) && Distance(s.cachePts, 90 * Stamp(ms[n])) <= 180)
  }

  /** A pushed segment, its number counted from zero. */
  predicate GoodSegment(g: Segment, k: nat, c: Counters, fs: seq<Frame>, group: seq<Media>)
    requires ValidCounters(c)
  {
    && g.seqNum == k + 1 && g.data == SegmentData(k, c, fs)
    && Carries(fs, [], group) && Batches(AudioFrames(fs), AudioOnly(group)) && g.duration == Span(group)
  }

  ghost predicate Pushed(segs: seq<Segment>, groups: seq<seq<Media>>, log: seq<seq<Frame>>)
  {
    && |segs| == |groups| == |log|
    && forall k | 0 <= k < |segs| :: GoodSegment(segs[k], k, StartOf(log[..k]), log[k], groups[k])
  }

  function Pending(s: State): seq<byte>
  { if s.num == 0 then [] else s.buf }

  /** What has been written of the open segment. */
  predicate Writing(s: State, log: Log)
  {
    && s.open && s.out == SegmentData(|s.pushed|, StartOf(log.closed), log.open)
    && s.mux == CountersAfter(StartOf(log.closed), log.open)
    && s.patCc == s.pmtCc == |s.pushed| % 16 + 1
  }

  /** The open segment carries its group, less the cached audio. */
  predicate Filled(s: State, fs: seq<Frame>, group: seq<Media>)
  {
    && group != [] && Carries(fs, Pending(s), group)
    && s.hasFirst && s.first == Stamp(group[0]) && s.last == Stamp(group[|group| - 1])
  }

  /** Nothing is written before the first key frame. */
  predicate Unopened(s: State, log: Log)
  {
    && !s.open && s.out == [] && !s.hasFirst && s.num == 0 && s.pushed == [] && s.mux == Counters(0, 0)
    && s.patCc == s.pmtCc == 0 && log == Log([], [])
  }

  predicate Settings(s: State, i: Intake)
  { s.avc == i.sets && s.gotAac == i.got && s.aac == i.config && (s.open <==> i.taken != []) }

  ghost predicate Holds(s: State, g: Groups, log: Log)
  {
    && ValidState(s) && Pushed(s.pushed, g.closed, log.closed)
    && if !s.open then Unopened(s, log) && g == Groups([], [])
       else
         && Writing(s, log) && Filled(s, log.open, g.open)
         && Batching(s, AudioFrames(log.open), AudioOnly(g.open))
  }

  ghost predicate Inv(s: State, i: Intake, log: Log)
  { Settings(s, i) && Holds(s, Grouped(i.taken), log) }

  // ---- muxing ----

  lemma DataMore(c: Counters, k: nat, fs: seq<Frame>, f: Frame)
    requires ValidCounters(c)
    ensures
      var c1 := CountersAfter(c, fs);
      && SegmentData(k, c, fs + [f]) == SegmentData(k, c, fs) + Flatten(MuxPackets(c1, f))
      && CountersAfter(c, fs + [f]) == MuxCounters(c1, f)
  {
    var c1 := CountersAfter(c, fs);
    RunSnoc(c, fs, f);
    hide RunPackets, MuxPackets, MuxCounters, CountersAfter, Tables;
    FlattenAppend(RunPackets(c, fs), MuxPackets(c1, f));
    Assoc(Tables(k % 16), Flatten(RunPackets(c, fs)), Flatten(MuxPackets(c1, f)));
  }

  lemma WritingMore(s: State, log: Log, f: Frame)
    requires ValidState(s) && Writing(s, log)
    ensures Writing(MuxFrame(s, f), log.(open := log.open + [f]))
    ensures MuxFrame(s, f) == s.(out := MuxFrame(s, f).out, mux := MuxFrame(s, f).mux)
  {
    DataMore(StartOf(log.closed), |s.pushed|, log.open, f);
    hide SegmentData, StartOf, CountersAfter, MuxPackets, MuxCounters;
  }

  lemma VideoSnoc(fs: seq<Frame>, f: Frame)
    ensures VideoFrames(fs + [f]) == VideoFrames(fs) + if f.video then [f] else []
  { Receivers.Snoc(fs, f); }

  lemma MediaSnoc(ms: seq<Media>, m: Media)
    ensures VideoOf(ms + [m]) == VideoOf(ms) + if m.Video? then [m.frame] else []
    ensures AudioOf(ms + [m]) == AudioOf(ms) + if m.Audio? then m.data else []
  { Receivers.Snoc(ms, m); }

  lemma CarriesVideo(fs: seq<Frame>, pending: seq<byte>, group: seq<Media>, f: Frame)
    requires Carries(fs, pending, group) && f.video
    ensures Carries(fs + [f], pending, group + [Video(f)])
  {
    VideoSnoc(fs, f);
    MediaSnoc(group, Video(f));
    DataSnoc(AUDIO_PID, fs, f);
    assert PidOf(f) != AUDIO_PID;
    hide VideoFrames, VideoOf, AudioOf, DataOf, PidOf;
    EmptyUnit(AudioOf(group));
    EmptyUnit(DataOf(AUDIO_PID, fs));
    HeadKept(fs, f);
    HeadKept(group, Video(f));
  }

  lemma HeadKept<T>(s: seq<T>, x: T)
    requires s != []
    ensures s + [x] != [] && (s + [x])[0] == s[0] && (s + [x])[|s + [x]| - 1] == x
  {}

  /** Cached audio becomes pending. */
  lemma CarriesAudio(fs: seq<Frame>, pending: seq<byte>, group: seq<Media>, ts: u32, data: seq<byte>)
    requires Carries(fs, pending, group)
    ensures Carries(fs, pending + data, group + [Audio(ts, data)])
  {
    MediaSnoc(group, Audio(ts, data));
    hide VideoFrames, VideoOf, AudioOf, DataOf;
    EmptyUnit(VideoOf(group));
    Assoc(DataOf(AUDIO_PID, fs), pending, data);
    HeadKept(group, Audio(ts, data));
  }

  /** Pending audio is muxed. */
  lemma CarriesFlush(fs: seq<Frame>, group: seq<Media>, f: Frame)
    requires Carries(fs, f.data, group) && !f.video
    ensures Carries(fs + [f], [], group)
  {
    VideoSnoc(fs, f);
    DataSnoc(AUDIO_PID, fs, f);
    assert PidOf(f) == AUDIO_PID;
    hide VideoFrames, VideoOf, AudioOf, DataOf, PidOf;
    EmptyUnit(VideoFrames(fs));
    EmptyUnit(AudioOf(group));
    HeadKept(fs, f);
  }

  lemma CarriesFirst(f: Frame)
    requires f.video && f.key
    ensures Carries([f], [], [Video(f)])
  {
    VideoSnoc([], f);
    MediaSnoc([], Video(f));
    DataSnoc(AUDIO_PID, [], f);
    EmptyUnit([f]);
  }

  // ---- batches of audio ----

  lemma AudioSnoc(fs: seq<Frame>, f: Frame)
    ensures AudioFrames(fs + [f]) == AudioFrames(fs) + if f.video then [] else [f]
  { Receivers.Snoc(fs, f); }

  lemma OnlySnoc(ms: seq<Media>, m: Media)
    ensures AudioOnly(ms + [m]) == AudioOnly(ms) + if m.Audio? then [m] else []
  { Receivers.Snoc(ms, m); }

  lemma NearStamp(pts: nat, ts: u32)
    requires Distance(pts, 90 * ts) <= 180
    ensures Near(pts / 90 % 0x1_0000_0000, ts)
  {}

  lemma BatchedMore(fs: seq<Frame>, ms: seq<Media>, more: seq<Media>)
    requires Batched(fs, ms)
    ensures Batched(fs, ms + more)
  {
    hide Packs;
    assert forall k | 0 <= k < |fs| :: (ms + more)[6 * k..6 * k + 6] == ms[6 * k..6 * k + 6];
  }

  /** One more packet is cached, aligned to within two milliseconds if it is the first. */
  lemma BatchingCache(s: State, fs: seq<Frame>, ms: seq<Media>, ts: u32, data: seq<byte>, pts: nat)
    requires Batching(s, fs, ms) && Distance(pts, 90 * ts) <= 180
    ensures Batching(CacheAudio(s, data, pts), fs, ms + [Audio(ts, data)])
  {
    var m, n := Audio(ts, data), 6 * |fs|;
    BatchedMore(fs, ms, [m]);
    hide Batched;
    assert (ms + [m])[n..] == ms[n..] + [m];
    MediaSnoc(ms[n..], m);
    if s.num == 0 {
      assert ms[n..] == [];
      EmptyUnit(data);
    }
  }

  lemma CachePacks(s: State, fs: seq<Frame>, ms: seq<Media>)
    requires Batching(s, fs, ms) && s.num > 0
    ensures Packs(AudioFrame(s), ms[6 * |fs|..])
  { NearStamp(s.cachePts, Stamp(ms[6 * |fs|])); }

  /** A full cache becomes a batch. */
  lemma BatchingMux(s: State, s': State, fs: seq<Frame>, ms: seq<Media>)
    requires Batching(s, fs, ms) && s.num == 6 && s'.num == 0
    ensures Batching(s', fs + [AudioFrame(s)], ms)
  {
    CachePacks(s, fs, ms);
    hide Packs;
    assert ms[6 * |fs|..] == ms[6 * |fs|..6 * |fs| + 6];
  }

  /** Closing a segment makes a batch of what is cached. */
  lemma BatchesFlush(s: State, fs: seq<Frame>, ms: seq<Media>)
    requires Batching(s, fs, ms) && s.num < 6
    ensures Batches(if s.num == 0 then fs else fs + [AudioFrame(s)], ms)
  {
    if s.num > 0 { CachePacks(s, fs, ms); }
    hide Packs;
    var all := if s.num == 0 then fs else fs + [AudioFrame(s)];
    assert |ms| / 6 == |fs| && all[..|fs|] == fs;
  }

  // ---- the steps ----

  /** Muxing the cache, when there is enough of it, keeps all but what is pending. */
  lemma MuxAudioHolds(s: State, limit: nat, log: Log, group: seq<Media>) returns (fs: seq<Frame>)
    requires ValidState(s.(num := 0)) && Writing(s, log) && Filled(s, log.open, group) && 0 < limit
    ensures var s' := MuxAudio(s, limit);
            && Writing(s', log.(open := fs)) && Filled(s', fs, group)
            && s' == s.(out := s'.out, mux := s'.mux, num := s'.num) && s'.num == (if s.num < limit then s.num else 0)
            && fs == if s.num < limit then log.open else log.open + [AudioFrame(s)]
  {
    fs := log.open;
    if s.num >= limit {
      var f, s0 := AudioFrame(s), s.(num := 0);
      hide Carries, SegmentData, StartOf, CountersAfter, ValidState;
      fs := log.open + [f];
      WritingMore(s0, log, f);
      CarriesFlush(log.open, group, f);
      hide MuxFrame;
    }
  }

  lemma TakeVideoHolds(s: State, log: Log, group: seq<Media>, f: Frame)
    requires ValidState(s) && Writing(s, log) && f.video
    requires if group == [] then log.open == [] && s.num == 0 && !s.hasFirst && f.key else Filled(s, log.open, group)
    requires Batching(s, AudioFrames(log.open), AudioOnly(group))
    ensures var s' := TakeVideo(s, f);
            && Writing(s', log.(open := log.open + [f])) && Filled(s', log.open + [f], group + [Video(f)])
            && Batching(s', AudioFrames(log.open + [f]), AudioOnly(group + [Video(f)]))
            && s'.pushed == s.pushed && s'.open && s'.avc == s.avc && s'.gotAac == s.gotAac && s'.aac == s.aac
  {
    assert ValidState(Update(s, f.ts));
    hide Carries, SegmentData, StartOf, CountersAfter, ValidState, MuxFrame, AudioFrames, AudioOnly, Batching;
    WritingMore(Update(s, f.ts), log, f);
    VideoBatching(s, TakeVideo(s, f), log.open, group, f);
    if group == [] {
      CarriesFirst(f);
      EmptyUnit([f]);
      EmptyUnit([Video(f)]);
    } else {
      CarriesVideo(log.open, Pending(s), group, f);
      HeadKept(group, Video(f));
    }
  }

  lemma TablesCounter(n: nat)
    ensures n > 0 ==> n % 16 == if (n - 1) % 16 + 1 > 15 then 0 else (n - 1) % 16 + 1
  {}

  lemma VideoBatching(s: State, s': State, fs: seq<Frame>, group: seq<Media>, f: Frame)
    requires Batching(s, AudioFrames(fs), AudioOnly(group)) && f.video
    requires s'.num == s.num && s'.buf == s.buf && s'.cachePts == s.cachePts
    ensures Batching(s', AudioFrames(fs + [f]), AudioOnly(group + [Video(f)]))
  {
    AudioSnoc(fs, f);
    OnlySnoc(group, Video(f));
    hide AudioFrames, AudioOnly, Batched, AudioOf;
    EmptyUnit(AudioFrames(fs));
    EmptyUnit(AudioOnly(group));
  }

  lemma BeginParts(s: State, cc: nat)
    requires ValidState(s) && s.out == [] && s.pmtCc == s.patCc && cc == if s.patCc > 15 then 0 else s.patCc
    ensures Begin(s) == s.(out := Tables(cc), patCc := cc + 1, pmtCc := cc + 1)
  {
    hide PatPacket, PmtPacket;
    EmptyUnit(PatPacket(cc));
  }

  lemma EmptySegment(k: nat, c: Counters)
    requires ValidCounters(c)
    ensures SegmentData(k, c, []) == Tables(k % 16) && CountersAfter(c, []) == c
  {
    hide Tables;
    EmptyUnit(Tables(k % 16));
  }

  lemma BeginWrites(s: State, log: Log)
    requires ValidState(s) && s.open && s.out == [] && log.open == [] && s.mux == StartOf(log.closed)
    requires
      if s.pushed == [] then s.patCc == s.pmtCc == 0 else s.patCc == s.pmtCc == (|s.pushed| - 1) % 16 + 1
    ensures var s' := Begin(s);
            && Writing(s', log) && s' == s.(out := s'.out, patCc := s'.patCc, pmtCc := s'.pmtCc)
  {
    var cc := |s.pushed| % 16;
    TablesCounter(|s.pushed|);
    hide Begin, ValidState, SegmentData, StartOf, CountersAfter, Tables;
    BeginParts(s, cc);
    EmptySegment(|s.pushed|, s.mux);
  }

  /** Closing a segment pushes what its group holds, with nothing left in the cache. */
  lemma CloseHolds(s: State, g: Groups, log: Log) returns (log': Log)
    requires Holds(s, g, log) && s.open && Span(g.open) >= 3000
    ensures var s' := Begin(Push(FlushAudio(s)));
            && ValidState(s') && Writing(s', log') && log'.open == [] && s'.num == 0 && !s'.hasFirst
            && Pushed(s'.pushed, g.closed + [g.open], log'.closed)
            && s'.open && s'.avc == s.avc && s'.gotAac == s.gotAac && s'.aac == s.aac
  {
    hide SegmentData, Carries, GoodSegment, StartOf, CountersAfter, Begin, MuxAudio, Batching, Batches, AudioFrame;
    var fs := MuxAudioHolds(s, 1, log, g.open);
    CloseBatches(s, log.open, fs, g.open);
    var s1 := FlushAudio(s);
    assert s1 == MuxAudio(s, 1) && Pending(s1) == [];
    log' := Log(log.closed + [fs], []);
    hide FlushAudio;
    PushedSnoc(s1, g, log.closed, fs);
    StartSnoc(log.closed, fs);
    hide Pushed;
    BeginWrites(Push(s1), log');
  }

  lemma CloseBatches(s: State, before: seq<Frame>, fs: seq<Frame>, group: seq<Media>)
    requires ValidState(s) && Batching(s, AudioFrames(before), AudioOnly(group))
    requires fs == if s.num < 1 then before else before + [AudioFrame(s)]
    ensures Batches(AudioFrames(fs), AudioOnly(group))
  {
    BatchesFlush(s, AudioFrames(before), AudioOnly(group));
    if s.num > 0 { AudioSnoc(before, AudioFrame(s)); }
    hide Batches;
  }

  lemma StartSnoc(closed: seq<seq<Frame>>, fs: seq<Frame>)
    ensures StartOf(closed + [fs]) == CountersAfter(StartOf(closed), fs)
  { Receivers.Snoc(closed, fs); }

  lemma PushedSnoc(s: State, g: Groups, closed: seq<seq<Frame>>, fs: seq<Frame>)
    requires ValidState(s) && Pushed(s.pushed, g.closed, closed) && Writing(s, Log(closed, fs)) && s.num == 0
    requires Filled(s, fs, g.open) && Batches(AudioFrames(fs), AudioOnly(g.open))
    ensures Pushed(Push(s).pushed, g.closed + [g.open], closed + [fs])
  {
    var seg := Segment(|s.pushed| + 1, s.last - s.first, s.out);
    hide *;
    PushParts(s, seg);
    PushedGood(s, closed, seg, fs, g.open);
    PushedOne(s.pushed, g.closed, closed, seg, fs, g.open);
  }

  lemma PushParts(s: State, seg: Segment)
    requires ValidState(s) && seg == Segment(|s.pushed| + 1, s.last - s.first, s.out)
    ensures Push(s) == s.(pushed := s.pushed + [seg], out := [], hasFirst := false)
  {}

  lemma PushedGood(s: State, closed: seq<seq<Frame>>, seg: Segment, fs: seq<Frame>, group: seq<Media>)
    requires Writing(s, Log(closed, fs)) && s.num == 0 && Filled(s, fs, group)
    requires Batches(AudioFrames(fs), AudioOnly(group))
    requires seg == Segment(|s.pushed| + 1, s.last - s.first, s.out)
    ensures GoodSegment(seg, |s.pushed|, StartOf(closed), fs, group)
  { hide SegmentData, StartOf, CountersAfter, Carries, Batches; }

  lemma PushedOne(segs: seq<Segment>, groups: seq<seq<Media>>, log: seq<seq<Frame>>,
                  seg: Segment, fs: seq<Frame>, group: seq<Media>)
    requires Pushed(segs, groups, log) && GoodSegment(seg, |segs|, StartOf(log), fs, group)
    ensures Pushed(segs + [seg], groups + [group], log + [fs])
  {
    hide GoodSegment, StartOf;
    var log' := log + [fs];
    assert log'[..|log|] == log && forall k | 0 <= k < |log| :: log'[..k] == log[..k];
  }

  /** A key frame: the cut and what it leaves for the frame that follows. */
  lemma CutHolds(s: State, g: Groups, log: Log, f: Frame) returns (log': Log)
    requires Holds(s, g, log) && f.video && f.key
    ensures var s' := TakeVideo(Cut(s), f);
            && Holds(s', Arrive(g, Video(f)), log')
            && s'.open && s'.avc == s.avc && s'.gotAac == s.gotAac && s'.aac == s.aac
  {
    hide Pushed, SegmentData, Carries, StartOf, CountersAfter, Begin, Push, FlushAudio, MuxAudio, TakeVideo, ValidState;
    hide Batching;
    NothingCached(Cut(s));
    var m := Video(f);
    if !s.open {
      var s0 := s.(open := true, out := []);
      assert ValidState(s0) by { OpenValid(s); }
      StartNone();
      BeginWrites(s0, log);
      TakeVideoHolds(Cut(s), log, [], f);
      log' := log.(open := [f]);
      EmptyUnit([f]);
      EmptyUnit([m]);
    } else if s.last - s.first >= DURATION {
      log' := CloseHolds(s, g, log);
      TakeVideoHolds(Cut(s), log', [], f);
      log' := log'.(open := [f]);
      EmptyUnit([f]);
      EmptyUnit([m]);
    } else {
      TakeVideoHolds(s, log, g.open, f);
      log' := log.(open := log.open + [f]);
    }
  }

  lemma NothingCached(s: State)
    ensures s.num == 0 ==> Batching(s, AudioFrames([]), AudioOnly([]))
  {}

  lemma OpenValid(s: State)
    requires ValidState(s)
    ensures ValidState(s.(open := true, out := []))
  {}

  lemma StartNone()
    ensures StartOf([]) == Counters(0, 0)
  {}

  /** Audio in the cache, just before the cache may be muxed. */
  lemma CacheHolds(s: State, g: Groups, log: Log, ts: u32, data: seq<byte>) returns (s': State)
    requires Holds(s, g, log) && s.open
    ensures ValidState(s'.(num := 0)) && s'.num == s.num + 1 <= 6 && TakeAudio(s, ts, data) == MuxAudio(s', 6)
    ensures
      var group := g.open + [Audio(ts, data)];
      && Writing(s', log) && Filled(s', log.open, group)
      && Batching(s', AudioFrames(log.open), AudioOnly(group))
      && s'.pushed == s.pushed && s'.open && s'.avc == s.avc && s'.gotAac == s.gotAac && s'.aac == s.aac
  {
    var (pts, s1) := Align(Update(s, ts), ts * 90);
    s' := CacheAudio(s1, data, pts);
    HoldsValid(s, g, log);
    AudioParts(s, ts, data);
    TakeBatching(s, s', log.open, g.open, ts, data, pts);
    hide Pushed, MuxAudio, TakeAudio, Align, Update, CacheAudio, Pending, Batching, Writing, Filled, ValidState;
    hide Distance;
    SameWriting(s, s', log);
    CacheFilled(s, s', log.open, g.open, ts, data);
  }

  lemma SameWriting(s: State, s': State, log: Log)
    requires Writing(s, log) && s'.open == s.open && s'.out == s.out && s'.mux == s.mux && s'.pushed == s.pushed
    requires s'.patCc == s.patCc && s'.pmtCc == s.pmtCc
    ensures Writing(s', log)
  {}

  lemma CacheFilled(s: State, s': State, fs: seq<Frame>, group: seq<Media>, ts: u32, data: seq<byte>)
    requires Filled(s, fs, group) && Pending(s') == Pending(s) + data
    requires s'.hasFirst && s'.last == ts && s'.first == if s.hasFirst then s.first else ts
    ensures Filled(s', fs, group + [Audio(ts, data)])
  {
    hide Carries, Pending;
    CarriesAudio(fs, Pending(s), group, ts, data);
    HeadKept(group, Audio(ts, data));
  }

  lemma TakeAudioHolds(s: State, g: Groups, log: Log, ts: u32, data: seq<byte>) returns (log': Log)
    requires Holds(s, g, log) && s.open
    ensures var s' := TakeAudio(s, ts, data);
            && Holds(s', Arrive(g, Audio(ts, data)), log')
            && s'.open && s'.avc == s.avc && s'.gotAac == s.gotAac && s'.aac == s.aac
  {
    hide MuxAudio, TakeAudio, Writing, Filled, Batching, Pushed;
    var s1 := CacheHolds(s, g, log, ts, data);
    var group := g.open + [Audio(ts, data)];
    var fs := MuxAudioHolds(s1, MAX_CACHED_FRAMES, log, group);
    log' := log.(open := fs);
    MuxBatching(s1, TakeAudio(s, ts, data), log.open, fs, AudioOnly(group));
  }

  lemma TakeBatching(s: State, s': State, fs: seq<Frame>, group: seq<Media>, ts: u32, data: seq<byte>, pts: nat)
    requires Batching(s, AudioFrames(fs), AudioOnly(group)) && Distance(pts, 90 * ts) <= 180
    requires s'.num == CacheAudio(s, data, pts).num && s'.buf == CacheAudio(s, data, pts).buf
    requires s'.cachePts == CacheAudio(s, data, pts).cachePts
    ensures Batching(s', AudioFrames(fs), AudioOnly(group + [Audio(ts, data)]))
  {
    BatchingCache(s, AudioFrames(fs), AudioOnly(group), ts, data, pts);
    OnlySnoc(group, Audio(ts, data));
    hide CacheAudio, Distance, Batched, AudioFrames, AudioOnly;
  }

  lemma MuxBatching(s: State, s': State, before: seq<Frame>, fs: seq<Frame>, ms: seq<Media>)
    requires Batching(s, AudioFrames(before), ms) && s.num <= 6
    requires s' == s.(out := s'.out, mux := s'.mux, num := if s.num < 6 then s.num else 0)
    requires fs == if s.num < 6 then before else before + [AudioFrame(s)]
    ensures Batching(s', AudioFrames(fs), ms)
  {
    if s.num == 6 {
      AudioSnoc(before, AudioFrame(s));
      BatchingMux(s, s', AudioFrames(before), ms);
    }
    hide Batched, AudioFrames;
  }

  lemma HoldsValid(s: State, g: Groups, log: Log)
    requires Holds(s, g, log)
    ensures ValidState(s)
  { hide Pushed, Writing, Filled; }

  lemma AudioParts(s: State, ts: u32, data: seq<byte>)
    requires ValidState(s)
    ensures
      var (pts, s1) := Align(Update(s, ts), ts * 90);
      var s2 := CacheAudio(s1, data, pts);
      && Distance(pts, 90 * ts) <= 180
      && ValidState(s2.(num := 0)) && TakeAudio(s, ts, data) == MuxAudio(s2, 6)
      && s2.num == s.num + 1 && Pending(s2) == Pending(s) + data
      && s2 == s.(first := if s.hasFirst then s.first else ts, hasFirst := true, last := ts,
                  frameNum := s2.frameNum, frameBase := s2.frameBase, num := s2.num, buf := s2.buf,
                  cachePts := s2.cachePts)
  {
    Aligned(s, ts);
    AlignClose(Update(s, ts), ts * 90);
    EmptyUnit(data);
    hide Align, MuxAudio, Update, Distance;
  }

  /** Alignment changes the time stamps and the expected one only. */
  lemma Aligned(s: State, ts: u32)
    ensures var s1 := Align(Update(s, ts), ts * 90).1;
            && s1 == s.(first := if s.hasFirst then s.first else ts, hasFirst := true, last := ts,
                        frameNum := s1.frameNum, frameBase := s1.frameBase)
            && (ValidState(s) ==> ValidState(s1))
  { hide SampleRate, Distance; }

  // ---- one packet ----

  lemma GroupedSnoc(i: Intake, m: Media)
    ensures Taken(i, m).taken != [] && Grouped(Taken(i, m).taken) == Arrive(Grouped(i.taken), m)
  { Receivers.Snoc(i.taken, m); }

  lemma VideoKeeps(s: State, i: Intake, log: Log, f: Frame) returns (log': Log)
    requires Inv(s, i, log) && f.video && (s.open || f.key)
    ensures Inv(TakeVideo(if f.key then Cut(s) else s, f), Taken(i, Video(f)), log')
  {
    GroupedSnoc(i, Video(f));
    hide Grouped, Cut, TakeVideo, Pushed, Writing, Carries, ValidState;
    var g := Grouped(i.taken);
    if f.key {
      log' := CutHolds(s, g, log, f);
    } else {
      log' := log.(open := log.open + [f]);
      TakeVideoHolds(s, log, g.open, f);
      assert Arrive(g, Video(f)) == Groups(g.closed, g.open + [Video(f)]);
    }
  }

  lemma NewSettings(s: State, i: Intake, log: Log, s': State, i': Intake)
    requires Inv(s, i, log) && ValidState(s') && Settings(s', i') && i'.taken == i.taken
    requires s' == s.(avc := s'.avc, gotAac := s'.gotAac, aac := s'.aac)
    ensures Inv(s', i', log)
  { hide Pushed, Grouped, SegmentData, Carries, StartOf, CountersAfter; }

  lemma VideoCases(s: State, p: Packet, tag: FlvTag.Tag, body: seq<byte>)
    requires ValidState(s)
    ensures
      var s1 := s.(avc := AnnexB.StoredAfter(body, tag.IsSeq(), s.avc));
      var data := AnnexB.Converted(body, tag.IsSeq(), s.avc);
      ValidState(s1) &&
      StepVideo(s, p, tag, body)
      == if tag.codecId != FlvTag.CODEC_AVC then s
         else if tag.IsSeq() || data.Err? then s1
         else
           var s2 := if tag.IsKeyFrame() then Cut(s1) else s1;
           if !s2.open then s2 else TakeVideo(s2, VideoFrame(p, tag, data.value))
  { hide TakeVideo, Cut, AnnexB.Converted, AnnexB.StoredAfter; }

  lemma VideoStep(s: State, i: Intake, log: Log, p: Packet, tag: FlvTag.Tag, body: seq<byte>) returns (log': Log)
    requires Inv(s, i, log)
    ensures Inv(StepVideo(s, p, tag, body), OfferVideo(i, p, tag, body), log')
  {
    log' := log;
    VideoCases(s, p, tag, body);
    var data := AnnexB.Converted(body, tag.IsSeq(), s.avc);
    var s1 := s.(avc := AnnexB.StoredAfter(body, tag.IsSeq(), s.avc));
    assert !tag.IsSeq() ==> s1 == s;
    assert tag.IsSeq() <==> tag.frameType == 1 && tag.avcPacketType == 0;
    assert tag.IsKeyFrame() <==> tag.frameType == 1;
    hide AnnexB.Converted, AnnexB.StoredAfter, Holds, StepVideo, TakeVideo, Cut;
    if tag.codecId == 7 {
      if tag.IsSeq() {
        NewSettings(s, i, log, s1, i.(sets := s1.avc));
      } else if data.Ok? && (s.open || tag.IsKeyFrame()) {
        var f := VideoFrame(p, tag, data.value);
        assert f == Frame(true, tag.frameType == 1, p.ts, tag.composition, data.value);
        log' := VideoKeeps(s, i, log, f);
      }
    }
  }

  lemma AudioCases(s: State, p: Packet, tag: FlvTag.Tag, body: seq<byte>)
    requires ValidState(s)
    ensures
      StepAudio(s, p, tag, body)
      == if tag.soundFormat != FlvTag.SOUND_AAC then s
         else if tag.aacPacketType == FlvTag.AAC_SEQHDR then
           match Adts.SpecificInfo(body) case Ok(c) => s.(gotAac := true, aac := c) case Err(_) => s
         else
           var data := AacData(s, tag, body);
           if data.Ok? && s.open then TakeAudio(s, p.ts, data.value) else s
  { hide TakeAudio, AacData, Adts.SpecificInfo, ValidState; }

  lemma AudioKeeps(s: State, i: Intake, log: Log, ts: u32, data: seq<byte>) returns (log': Log)
    requires Inv(s, i, log) && s.open
    ensures Inv(TakeAudio(s, ts, data), Taken(i, Audio(ts, data)), log')
  {
    GroupedSnoc(i, Audio(ts, data));
    hide Grouped, TakeAudio, Holds;
    log' := TakeAudioHolds(s, Grouped(i.taken), log, ts, data);
  }

  lemma InfoRange(src: seq<byte>)
    ensures match Adts.SpecificInfo(src)
            case Ok(c) => c.sampleRate < 16 && c.channel < 16 && c.objectType < 32
            case Err(_) => |src| < 2
  {}

  lemma AudioStep(s: State, i: Intake, log: Log, p: Packet, tag: FlvTag.Tag, body: seq<byte>) returns (log': Log)
    requires Inv(s, i, log) && ValidIntake(i)
    ensures Inv(StepAudio(s, p, tag, body), OfferAudio(i, p, tag, body), log')
  {
    log' := log;
    AudioCases(s, p, tag, body);
    InfoRange(body);
    var data := AacData(s, tag, body);
    assert tag.aacPacketType != 1 ==> data == Ok([]);
    assert tag.aacPacketType == 1 ==>
        data == if body == [] || !s.gotAac then Err(Invalid) else Ok(Adts.Frame(s.aac, body));
    hide Adts.SpecificInfo, Adts.Frame, StepAudio, TakeAudio, Holds, AacData, ValidState, ValidIntake;
    if tag.soundFormat == 10 {
      if tag.aacPacketType == 0 {
        if Adts.SpecificInfo(body).Ok? {
          var c := Adts.SpecificInfo(body).value;
          ConfigValid(s, i, log, c);
          NewSettings(s, i, log, s.(gotAac := true, aac := c), i.(got := true, config := c));
        }
      } else if data.Ok? && s.open {
        log' := AudioKeeps(s, i, log, p.ts, data.value);
      }
    }
  }

  lemma ConfigValid(s: State, i: Intake, log: Log, c: Adts.Config)
    requires Inv(s, i, log) && c.sampleRate < 16 && c.channel < 16 && c.objectType < 32
    ensures ValidState(s.(gotAac := true, aac := c))
  { hide Pushed, Writing, Filled, Grouped; }

  // ---- whole runs ----

  lemma InvValid(s: State, i: Intake, log: Log)
    requires Inv(s, i, log)
    ensures ValidState(s)
  { hide Pushed, Writing, Filled, Grouped; }

  lemma StepKeeps(s: State, i: Intake, log: Log, p: Packet, r: FlvTag.TagRead)
    returns (s': State, i': Intake, log': Log)
    requires Inv(s, i, log) && ValidIntake(i) && ValidState(s)
    requires !p.isMetadata && FlvTag.ParseTag(p.data, p.isVideo) == Ok(r)
    ensures Inv(s', i', log') && ValidIntake(i') && ValidState(s') && Step(s, p) == Continue(s')
    ensures forall ps :: Offer(i, [p] + ps) == Offer(i', ps)
  {
    s', i', log' := s, i, log;
    var body := p.data[r.n..];
    hide Inv, ValidState, ValidIntake, StepVideo, StepAudio, OfferVideo, OfferAudio, FlvTag.ParseTag;
    OfferedValid(i, p, r.tag, body);
    if r.tag.codecId == 7 && |p.data| >= 2 && p.data[0] == 0x17 && p.data[1] == 2 {
    } else if p.isVideo {
      s', i' := StepVideo(s, p, r.tag, body), OfferVideo(i, p, r.tag, body);
      log' := VideoStep(s, i, log, p, r.tag, body);
    } else {
      s', i' := StepAudio(s, p, r.tag, body), OfferAudio(i, p, r.tag, body);
      log' := AudioStep(s, i, log, p, r.tag, body);
    }
    forall ps ensures Offer(i, [p] + ps) == Offer(i', ps) { TailOfAppend([p], ps); EmptyUnit(ps); }
  }

  /** What the segmenter has written is what the packets say, after any run. */
  lemma {:induction false} RunKeeps(s: State, i: Intake, log: Log, ps: seq<Packet>) returns (log': Log)
    requires Inv(s, i, log) && ValidIntake(i)
    ensures Inv(Run(s, ps), Offer(i, ps), log')
    decreases |ps|
  {
    InvValid(s, i, log);
    hide Inv, ValidState, ValidIntake, FlvTag.ParseTag;
    log' := log;
    if ps != [] {
      var p := ps[0];
      assert ps == [p] + ps[1..];
      if p.isMetadata {
        log' := RunKeeps(s, i, log, ps[1..]);
      } else if FlvTag.ParseTag(p.data, p.isVideo).Ok? {
        var s1, i1, log1 := StepKeeps(s, i, log, p, FlvTag.ParseTag(p.data, p.isVideo).value);
        log' := RunKeeps(s1, i1, log1, ps[1..]);
      }
    }
  }

  lemma OfferedValid(i: Intake, p: Packet, tag: FlvTag.Tag, body: seq<byte>)
    requires ValidIntake(i)
    ensures ValidIntake(OfferVideo(i, p, tag, body)) && ValidIntake(OfferAudio(i, p, tag, body))
  { InfoRange(body); }

  lemma InitialInv()
    ensures Inv(INITIAL, NOTHING, Log([], []))
  {}

  /**
   Every run of the segmenter, byte for byte: the pushed segments are those of the groups its packets fall
   into, each its tables and the packets of frames that carry its group; the open segment is alike.
  */
  lemma SegmentsExact(ps: seq<Packet>) returns (log: Log)
    ensures
      var s, g := Run(INITIAL, ps), Grouped(Offer(NOTHING, ps).taken);
      && Pushed(s.pushed, g.closed, log.closed)
      && (if g.open == [] then s.out == [] && g.closed == []
          else s.out == SegmentData(|s.pushed|, StartOf(log.closed), log.open) && Carries(log.open, Pending(s), g.open))
      && (s.open <==> g.open != [])
  {
    InitialInv();
    log := RunKeeps(INITIAL, NOTHING, Log([], []), ps);
    var s, g := Run(INITIAL, ps), Grouped(Offer(NOTHING, ps).taken);
    hide Run, Offer, Pushed, Carries, SegmentData, Grouped;
  }

  // ---- what a receiver gets ----

  lemma {:induction false} VideoData(fs: seq<Frame>)
    ensures DataOf(VIDEO_PID, fs) == DataOf(VIDEO_PID, VideoFrames(fs))
  {
    if fs != [] {
      var before, f := fs[..|fs| - 1], fs[|fs| - 1];
      assert fs == before + [f];
      VideoData(before);
      VideoSnoc(before, f);
      DataSnoc(VIDEO_PID, before, f);
      DataSnoc(VIDEO_PID, VideoFrames(before), f);
      assert PidOf(f) == if f.video then VIDEO_PID else AUDIO_PID;
      hide *;
      EmptyUnit(VideoFrames(before));
      EmptyUnit(DataOf(VIDEO_PID, before));
    }
  }

  lemma {:induction false} VideoFits(fs: seq<Frame>)
    requires AllFit(VideoFrames(fs))
    ensures forall i | 0 <= i < |fs| && fs[i].video :: Fits(fs[i])
  {
    if fs != [] {
      var before, f := fs[..|fs| - 1], fs[|fs| - 1];
      var vs := VideoFrames(before);
      assert VideoFrames(fs) == vs + if f.video then [f] else [];
      hide Fits;
      assert AllFit(vs) by { assert forall i | 0 <= i < |vs| :: VideoFrames(fs)[i] == vs[i]; }
      assert f.video ==> VideoFrames(fs)[|vs|] == f;
      VideoFits(before);
      assert forall i | 0 <= i < |before| :: fs[i] == before[i];
    }
  }

  lemma SegmentStreams(pid: nat, k: nat, c: Counters, fs: seq<Frame>)
    requires ValidCounters(c) && pid in {AUDIO_PID, VIDEO_PID}
    requires pid == VIDEO_PID ==> AllFit(VideoFrames(fs))
    ensures Demux(pid, SegmentData(k, c, fs)) == DataOf(pid, fs) && |SegmentData(k, c, fs)| % PACKET_LEN == 0
  {
    var t, ps := Tables(k % 16), Flatten(RunPackets(c, fs));
    PidFits(pid, fs);
    hide *;
    SegmentParts(k, c, fs);
    RunWhole(c, fs);
    DemuxRun(pid, c, fs);
    NoContent(pid, k % 16);
    BehindTables(pid, t, ps);
  }

  lemma BehindTables(pid: nat, t: seq<byte>, ps: seq<byte>)
    requires |t| == 2 * PACKET_LEN && Demux(pid, t) == [] && |ps| % PACKET_LEN == 0
    ensures Demux(pid, t + ps) == Demux(pid, ps) && |t + ps| % PACKET_LEN == 0
  {
    hide Demux;
    DemuxAppend(pid, t, ps);
    EmptyUnit(Demux(pid, ps));
  }

  lemma PidFits(pid: nat, fs: seq<Frame>)
    requires pid in {AUDIO_PID, VIDEO_PID} && (pid == VIDEO_PID ==> AllFit(VideoFrames(fs)))
    ensures forall i | 0 <= i < |fs| && pid == PidOf(fs[i]) :: Fits(fs[i])
  {
    if pid == VIDEO_PID { VideoFits(fs); }
    AudioFits();
    hide Fits;
  }

  lemma AudioFits()
    ensures forall f: Frame | !f.video :: Fits(f)
  {}

  lemma SegmentParts(k: nat, c: Counters, fs: seq<Frame>)
    requires ValidCounters(c)
    ensures SegmentData(k, c, fs) == Tables(k % 16) + Flatten(RunPackets(c, fs))
  {}

  /** A receiver gets the audio of the group but for the pending bytes, and its video if every frame fits. */
  lemma GroupReceived(k: nat, c: Counters, fs: seq<Frame>, pending: seq<byte>, group: seq<Media>)
    requires ValidCounters(c) && Carries(fs, pending, group)
    ensures
      var d := SegmentData(k, c, fs);
      && |d| % PACKET_LEN == 0 && Demux(AUDIO_PID, d) + pending == AudioOf(group)
      && (AllFit(VideoOf(group)) ==> Demux(VIDEO_PID, d) == DataOf(VIDEO_PID, VideoOf(group)))
  {
    assert VideoFrames(fs) == VideoOf(group) && DataOf(AUDIO_PID, fs) + pending == AudioOf(group);
    hide *;
    SegmentStreams(AUDIO_PID, k, c, fs);
    if AllFit(VideoOf(group)) {
      SegmentStreams(VIDEO_PID, k, c, fs);
      VideoData(fs);
    }
  }

  /** PAT, PMT, then the first packet of the key frame that begins the group. */
  ghost predicate Opens(d: seq<byte>, k: nat, f: Frame)
  {
    exists cc: nat, rest: seq<byte> :: cc < 16 && d == Tables(k % 16) + (TsPacket(f, cc, true, Pes(f)) + rest)
  }

  lemma OpensKey(k: nat, c: Counters, fs: seq<Frame>)
    requires ValidCounters(c) && fs != []
    ensures Opens(SegmentData(k, c, fs), k, fs[0])
  {
    var f := fs[0];
    var cc := NextCc(if f.video then c.video else c.audio);
    FramePackets(c, f);
    var p := TsPacket(f, cc, true, Pes(f));
    var ps := Packets(f, cc, false, Pes(f)[Share(f, true, |Pes(f)|)..]) + RunPackets(MuxCounters(c, f), fs[1..]);
    Assoc([p], Packets(f, cc, false, Pes(f)[Share(f, true, |Pes(f)|)..]), RunPackets(MuxCounters(c, f), fs[1..]));
    assert RunPackets(c, fs) == [p] + ps;
    hide RunPackets, Packets, MuxPackets, TsPacket, Pes, Tables;
    FlattenCons(p, ps);
  }

  /** A pushed segment as a player may rely on it. */
  ghost predicate Playable(g: Segment, k: nat, group: seq<Media>)
  {
    && group != [] && g.seqNum == k + 1 && g.duration == Span(group) && |g.data| % PACKET_LEN == 0
    && IsKey(group[0]) && Opens(g.data, k, group[0].frame)
    && Demux(AUDIO_PID, g.data) == AudioOf(group)
    && (AllFit(VideoOf(group)) ==> Demux(VIDEO_PID, g.data) == DataOf(VIDEO_PID, VideoOf(group)))
  }

  lemma GoodPlayable(g: Segment, k: nat, c: Counters, fs: seq<Frame>, group: seq<Media>)
    requires ValidCounters(c) && GoodSegment(g, k, c, fs, group)
    ensures Playable(g, k, group)
  {
    hide SegmentData, Opens, Demux, AudioOf, VideoOf, AllFit, DataOf;
    GroupReceived(k, c, fs, [], group);
    OpensKey(k, c, fs);
    EmptyUnit(Demux(AUDIO_PID, g.data));
  }

  /**
   For every run the pushed segments are, one for one, the groups its packets fall into: numbered in order,
   as long as their group, opened by the tables and its key frame, and with all and only its audio and video.
  */
  lemma EverySegment(ps: seq<Packet>)
    ensures
      var s, g := Run(INITIAL, ps), Grouped(Offer(NOTHING, ps).taken);
      && |s.pushed| == |g.closed| && (forall k | 0 <= k < |s.pushed| :: Playable(s.pushed[k], k, g.closed[k]))
      && (s.open <==> g.open != [])
      && (s.open ==> Demux(AUDIO_PID, s.out) + Pending(s) == AudioOf(g.open))
      && (s.open && AllFit(VideoOf(g.open)) ==> Demux(VIDEO_PID, s.out) == DataOf(VIDEO_PID, VideoOf(g.open)))
  {
    var s, g := Run(INITIAL, ps), Grouped(Offer(NOTHING, ps).taken);
    var log := SegmentsExact(ps);
    hide Run, Offer, Grouped, GoodSegment, Playable, Carries, SegmentData, Demux, StartOf;
    forall k | 0 <= k < |s.pushed| ensures Playable(s.pushed[k], k, g.closed[k]) {
      GoodPlayable(s.pushed[k], k, StartOf(log.closed[..k]), log.closed[k], g.closed[k]);
    }
    if s.open { GroupReceived(|s.pushed|, StartOf(log.closed), log.open, Pending(s), g.open); }
  }
}
