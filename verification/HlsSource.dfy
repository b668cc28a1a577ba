/** The HLS segmenter of `protocol/hls/source.go`, one packet at a time. */
module HlsSource {
  import opened Av
  import opened Bytes
  import opened Ts
  import opened Psi
  import opened Segments
  import opened Playlists
  import FlvTag
  import AnnexB
  import Adts
  import TsMuxer

  class Status {
    var hasSetFirstTs: bool
    var firstTimestamp: int
    var lastTimestamp: int

    constructor ()
      ensures !hasSetFirstTs && firstTimestamp == lastTimestamp == 0
    { hasSetFirstTs, firstTimestamp, lastTimestamp := false, 0, 0; }

    method Update(timestamp: u32)
      modifies this
      ensures hasSetFirstTs && lastTimestamp == timestamp
      ensures firstTimestamp == if old(hasSetFirstTs) then old(firstTimestamp) else timestamp
    {
      if !hasSetFirstTs {
        hasSetFirstTs := true;
        firstTimestamp := timestamp;
      }
      lastTimestamp := timestamp;
    }

    method ResetAndNew()
      modifies this`hasSetFirstTs
      ensures !hasSetFirstTs
    { hasSetFirstTs := false; }

    function DurationMs(): int
      reads this
    { lastTimestamp - firstTimestamp }
  }

  class AudioCache {
    var num: byte
    var offset: nat
    var pts: nat
    var buf: seq<byte>

    /** The offset counts the bytes of the cached frames. */
    ghost predicate Valid()
      reads this
    { num > 0 ==> offset == |buf| }

    constructor ()
      ensures Valid() && num == 0 && pts == 0 && buf == []
    { num, offset, pts, buf := 0, 0, 0, []; }

    method Cache(src: seq<byte>, pts: nat)
      requires Valid()
      modifies this
      ensures num == (old(num) + 1) % 256
      ensures old(num) == 0 ==> this.pts == pts && buf == src
      ensures old(num) != 0 ==> this.pts == old(this.pts) && buf == old(buf) + src
      ensures Valid()
    {
      if num == 0 {
        offset := 0;
        this.pts := pts;
        buf := [];
      }
      buf := buf + src;
      offset := offset + |src|;
      num := (num + 1) % 256;
    }

    method GetFrame() returns (offset: nat, pts: nat, buf: seq<byte>)
      requires Valid()
      modifies this`num
      ensures num == 0 && pts == this.pts && buf == this.buf && (old(num) > 0 ==> offset == |buf|)
    {
      num := 0;
      offset, pts, buf := this.offset, this.pts, this.buf;
    }
  }

  class Aligner {
    var frameNum: nat
    var frameBase: nat

    constructor ()
      ensures frameNum == frameBase == 0
    { frameNum, frameBase := 0, 0; }

    method Align(dts: nat, inc: nat) returns (dts': nat)
      modifies this
      ensures var est := old(frameBase) + old(frameNum) * inc;
              if Distance(est, dts) <= 180 then
                dts' == est && frameNum == old(frameNum) + 1 && frameBase == old(frameBase)
              else dts' == dts && frameNum == 1 && frameBase == dts
    {
      var estPts := frameBase + frameNum * inc;
      var dPts := if estPts >= dts then estPts - dts else dts - estPts;
      if dPts <= 2 * 90 {
        frameNum := frameNum + 1;
        return estPts;
      }
      frameNum := 1;
      frameBase := dts;
      dts' := dts;
    }
  }

  class Source {
    var seqNum: nat
    var bwriter: seq<byte>
    var btswriter: TsMuxer.Buffer?
    const muxer: TsMuxer.Muxer
    var pts: nat
    var dts: nat
    const stat: Status
    const align: Aligner
    const cache: AudioCache
    const tsCache: TsCache
    var h264: AnnexB.Parser?
    var aac: Adts.Parser?

    ghost var pushed: seq<Segment>

    ghost function Repr(): set<object>
      reads this, aac
    {
      {this, muxer, muxer.pat, muxer.pmt, muxer.tsPacket, stat, align, cache, tsCache}
      + (if btswriter == null then {} else {btswriter})
      + (if h264 == null then {} else {h264})
      + (if aac == null then {} else {aac, aac.adtsHeader})
    }

    /** The items pushed to the cache are the segments. */
    ghost predicate Matches(items: seq<Item>, segs: seq<Segment>)
    {
      |items| == |segs| &&
      forall i | 0 <= i < |items| ::
        items[i].seqNum == segs[i].seqNum && items[i].duration == segs[i].duration && items[i].data == segs[i].data
    }

    ghost predicate Valid()
      reads Repr()
    { Sound() && ValidState(Abs()) }

    /** All of `Valid` but the bound on the cached frames, which is exceeded just before they are muxed. */
    ghost predicate Sound()
      reads Repr()
    {
      && muxer.Valid() && cache.Valid() && tsCache.Valid()
      && (aac != null ==>
            aac.Valid() &&
            aac.adtsHeader != muxer.pat && aac.adtsHeader != muxer.pmt && aac.adtsHeader != muxer.tsPacket)
      && seqNum == |pushed| && Matches(tsCache.history, pushed) && ValidState(Abs().(num := 0))
    }

    /** The state of the segmenter as a value. */
    ghost function Abs(): State
      reads Repr()
    {
      State(muxer.Tally(), muxer.patCc, muxer.pmtCc,
            btswriter != null, if btswriter == null then [] else btswriter.bytes,
            stat.hasSetFirstTs, stat.firstTimestamp, stat.lastTimestamp,
            cache.num, cache.pts, cache.buf,
            align.frameNum, align.frameBase,
            if h264 == null then [] else h264.specificInfo,
            aac != null && aac.gettedSpecific, if aac == null then Adts.Config(0, 0, 0) else aac.config,
            pushed)
    }

    constructor ()
      ensures fresh(Repr())
      ensures Valid()
      ensures Abs() == INITIAL
    {
      seqNum, bwriter, btswriter, pts, dts, h264, aac := 0, [], null, 0, 0, null, null;
      pushed := [];
      stat := new Status();
      align := new Aligner();
      cache := new AudioCache();
      tsCache := new TsCache();
      muxer := new TsMuxer.Muxer();
      new;
      assert fresh(Repr());
      hide *;
      StartsInitial();
    }

    /** A source whose parts are as they are made is in the initial state. */
    lemma StartsInitial()
      requires muxer.Valid() && cache.Valid() && tsCache.Valid() && muxer.Tally() == Counters(0, 0)
      requires muxer.patCc == muxer.pmtCc == 0 && tsCache.history == []
      requires cache.num == cache.pts == 0 && cache.buf == []
      requires !stat.hasSetFirstTs && stat.firstTimestamp == stat.lastTimestamp == 0
      requires align.frameNum == align.frameBase == 0 && btswriter == null && h264 == null && aac == null
      requires seqNum == 0 && pushed == []
      ensures Valid() && Abs() == INITIAL
    {
      assert ValidState(INITIAL) && Matches([], []);
      hide ValidState, Matches, TsMuxer.Muxer.Valid, TsCache.Valid, AudioCache.Valid;
      assert Abs() == INITIAL;
      NumFree(INITIAL);
    }

    /** The bound on the cached frames apart, a state stays valid whatever their number. */
    static lemma NumFree(s: State)
      requires ValidState(s)
      ensures ValidState(s.(num := 0))
    {}

    /** Muxes the cached audio once there are `limit` frames of it. */
    method MuxAudio(limit: nat)
      requires Sound() && btswriter != null && limit <= MAX_CACHED_FRAMES
      modifies muxer, muxer.tsPacket, cache, btswriter
      ensures Valid() && Abs() == Segments.MuxAudio(old(Abs()), limit)
    {
      if cache.num < limit { return; }
      var _, pts, buf := cache.GetFrame();
      var f := Frame(false, false, pts / 90 % 0x1_0000_0000, 0, buf);
      muxer.Mux(f, btswriter);
    }

    method FlushAudio()
      requires Valid() && btswriter != null
      modifies muxer, muxer.tsPacket, cache, btswriter
      ensures Valid() && Abs() == Segments.FlushAudio(old(Abs()))
    { MuxAudio(1); }

    /** The tables at the head of a segment. */
    method BeginSegment()
      requires Valid() && btswriter != null
      modifies muxer, muxer.pat, muxer.pmt, btswriter
      ensures Valid() && Abs() == Segments.Begin(old(Abs()))
    {
      hide PsiPacket, PatPacket, PmtPacket, Matches, Last, StoredAll, ValidCounters;
      var pat := muxer.PAT();
      btswriter.Write(pat);
      var pmt := muxer.PMT(FlvTag.SOUND_AAC, true);
      btswriter.Write(pmt);
    }

    lemma MatchesSnoc(items: seq<Item>, segs: seq<Segment>, item: Item, seg: Segment)
      requires Matches(items, segs) && item.seqNum == seg.seqNum && item.duration == seg.duration
               && item.data == seg.data
      ensures Matches(items + [item], segs + [seg]) && |items + [item]| == |items| + 1
    {}

    method PushSegment(name: string)
      requires Valid() && btswriter != null
      modifies this`seqNum, this`pushed, tsCache, btswriter, stat
      ensures Valid() && Abs() == Segments.Push(old(Abs()))
    {
      hide Matches, Last, StoredAll, ValidState;
      seqNum := seqNum + 1;
      ghost var segment := Segment(seqNum, stat.DurationMs(), btswriter.bytes);
      ghost var s, s' := Abs(), Segments.Push(Abs());
      assert s'.pushed == s.pushed + [segment];
      AddItem(name, segment);
      btswriter.Reset();
      stat.ResetAndNew();
      assert Abs() == s';
      NumFree(s');
    }

    /** The open segment becomes an item of the playlist. */
    method AddItem(name: string, ghost segment: Segment)
      requires btswriter != null && tsCache.Valid() && Matches(tsCache.history, pushed)
      requires segment.seqNum == seqNum && segment.duration == stat.DurationMs() && segment.data == btswriter.bytes
      modifies this`pushed, tsCache
      ensures tsCache.Valid() && pushed == old(pushed) + [segment] && Matches(tsCache.history, pushed)
    {
      MatchesSnoc(tsCache.history, pushed, Item(name, seqNum, stat.DurationMs(), btswriter.bytes), segment);
      hide Matches, Last, StoredAll;
      tsCache.PushItem(Item(name, seqNum, stat.DurationMs(), btswriter.bytes));
      pushed := pushed + [segment];
    }

    /** The first segment. */
    method Open()
      requires Valid() && btswriter == null
      modifies this`btswriter
      ensures Valid() && btswriter != null && fresh(btswriter) && Abs() == old(Abs()).(open := true, out := [])
    {
      hide Matches, Last, StoredAll, ValidCounters;
      btswriter := new TsMuxer.Buffer();
    }

    method Cut(name: string)
      requires Valid()
      modifies this`btswriter, this`seqNum, this`pushed
      modifies muxer, muxer.pat, muxer.pmt, muxer.tsPacket, cache, tsCache, stat, btswriter
      ensures Valid() && fresh(Repr() - old(Repr())) && Abs() == Segments.Cut(old(Abs()))
      ensures btswriter != null && bwriter == old(bwriter)
    {
      hide Segments.Begin, Segments.Push, Segments.FlushAudio, Valid, Sound, ValidState;
      var newf := true;
      if btswriter == null {
        Open();
      } else if stat.DurationMs() >= DURATION {
        FlushAudio();
        PushSegment(name);
      } else {
        newf := false;
      }
      if newf { BeginSegment(); }
    }

    /** The H.264 parser is made when the first packet needs it. */
    method NeedH264()
      requires Valid()
      modifies this`h264
      ensures Valid() && h264 != null && Abs() == old(Abs())
      ensures if old(h264) == null then fresh(h264) else h264 == old(h264)
    {
      hide Matches, Last, StoredAll, ValidCounters;
      if h264 == null { h264 := new AnnexB.Parser(); }
    }

    method RunH264(body: seq<byte>, isSeq: bool) returns (r: Result<()>)
      requires Valid() && h264 != null
      modifies this`bwriter, h264
      ensures var stored := old(Abs()).avc;
              && Valid() && Abs() == old(Abs()).(avc := AnnexB.StoredAfter(body, isSeq, stored))
              && (r.Ok? <==> AnnexB.Converted(body, isSeq, stored).Ok?)
              && (r.Ok? ==> bwriter == AnnexB.Converted(body, isSeq, stored).value)
    {
      hide AnnexB.Converted, AnnexB.StoredAfter, Matches, Last, StoredAll, ValidCounters;
      r, bwriter := h264.Parse(body, isSeq);
    }

    /** Parameter sets are stored, a frame is converted. */
    method ParseVideo(body: seq<byte>, isSeq: bool) returns (r: Result<()>)
      requires Valid()
      modifies this, h264
      ensures Valid() && fresh(Repr() - old(Repr())) && btswriter == old(btswriter)
      ensures var stored := old(Abs()).avc;
              && Abs() == old(Abs()).(avc := AnnexB.StoredAfter(body, isSeq, stored))
              && (r.Ok? <==> AnnexB.Converted(body, isSeq, stored).Ok?)
              && (r.Ok? ==> bwriter == AnnexB.Converted(body, isSeq, stored).value)
    {
      hide AnnexB.Converted, AnnexB.StoredAfter, Valid, Sound, Abs;
      NeedH264();
      r := RunH264(body, isSeq);
    }

    /** A packet that will be muxed sets the time stamps of the segment. */
    method NoteStamp(ts: u32)
      requires Valid()
      modifies stat
      ensures Valid() && Abs() == Update(old(Abs()), ts)
    {
      hide Matches, Last, StoredAll, ValidCounters;
      stat.Update(ts);
    }

    method NoteClocks(f: Frame)
      requires Valid()
      modifies this`dts, this`pts
      ensures Valid() && Abs() == old(Abs()) && dts == 90 * f.ts && pts == 90 * (f.ts + f.composition)
    {
      hide Matches, Last, StoredAll, ValidCounters;
      dts := Dts(f);
      pts := dts + f.composition * 90;
    }

    method MuxVideo(f: Frame)
      requires Valid() && btswriter != null && f.video
      modifies muxer, muxer.tsPacket, btswriter
      ensures Valid() && Abs() == MuxFrame(old(Abs()), f)
    {
      hide MuxPackets, MuxCounters, ValidState, Matches, Last, StoredAll;
      ghost var s := MuxFrame(Abs(), f);
      muxer.Mux(f, btswriter);
      assert Abs() == s;
      NumFree(s);
    }

    method TakeFrame(f: Frame)
      requires Valid() && btswriter != null && f.video
      modifies this`dts, this`pts, stat, muxer, muxer.tsPacket, btswriter
      ensures Valid() && Abs() == Segments.TakeVideo(old(Abs()), f)
    {
      hide Valid, Sound, ValidState, MuxFrame, Abs;
      NoteStamp(f.ts);
      NoteClocks(f);
      MuxVideo(f);
    }

    /** A key frame may cut the segment before it; nothing is taken before the first one. */
    method Deliver(f: Frame, name: string)
      requires Valid() && f.video && f.data == bwriter
      modifies Repr()
      ensures Valid() && fresh(Repr() - old(Repr()))
      ensures var s := if f.key then Segments.Cut(old(Abs())) else old(Abs());
              Abs() == if s.open then Segments.TakeVideo(s, f) else s
    {
      hide ValidState, Segments.TakeVideo, Segments.Cut;
      if f.key { Cut(name); }
      if btswriter == null { return; }
      TakeFrame(f);
    }

    method TakeVideoPacket(p: Packet, tag: FlvTag.Tag, body: seq<byte>, name: string)
      requires Valid()
      modifies Repr()
      ensures Valid() && fresh(Repr() - old(Repr()))
      ensures Abs() == StepVideo(old(Abs()), p, tag, body)
    {
      hide AnnexB.Converted, AnnexB.StoredAfter, Segments.TakeVideo, Segments.Cut, Valid, Sound, ValidState, Abs;
      if tag.codecId != FlvTag.CODEC_AVC { return; }
      var r := ParseVideo(body, tag.IsSeq());
      if r.Err? || tag.IsSeq() { return; }
      Deliver(Frame(true, tag.IsKeyFrame(), p.ts, tag.composition, bwriter), name);
    }

    /** The AAC parser is made when the first packet needs it. */
    method NeedAac()
      requires Valid()
      modifies this`aac
      ensures Valid() && fresh(Repr() - old(Repr())) && aac != null && Abs() == old(Abs())
      ensures old(aac) != null ==> aac == old(aac)
      ensures old(aac) == null ==> fresh(aac) && fresh(aac.adtsHeader)
    {
      hide Matches, Last, StoredAll;
      if aac == null { aac := new Adts.Parser(); }
    }

    method StoreConfig(body: seq<byte>) returns (r: Result<()>)
      requires Valid() && aac != null
      modifies aac
      ensures Valid()
      ensures match Adts.SpecificInfo(body)
              case Ok(c) => r.Ok? && Abs() == old(Abs()).(gotAac := true, aac := c)
              case Err(_) => r.Err? && Abs() == old(Abs())
    {
      hide Adts.SpecificInfo, Matches, Last, StoredAll;
      r := aac.ParseSpecificInfo(body);
    }

    method WrapFrame(tag: FlvTag.Tag, body: seq<byte>) returns (r: Result<()>)
      requires Valid() && aac != null
      modifies this`bwriter, aac.adtsHeader
      ensures Valid() && Abs() == old(Abs())
      ensures var data := AacData(old(Abs()), tag, body); (r.Ok? <==> data.Ok?) && (r.Ok? ==> bwriter == data.value)
    {
      hide Adts.Frame, Matches, Last, StoredAll;
      bwriter := [];
      r := Ok(());
      if tag.aacPacketType == FlvTag.AAC_RAW {
        r, bwriter := aac.WriteAdts(body);
      }
    }

    /** A sequence header is stored, a raw frame gets its ADTS header. */
    method ParseAudio(tag: FlvTag.Tag, body: seq<byte>) returns (r: Result<()>)
      requires Valid()
      modifies this`aac, this`bwriter, aac, if aac == null then {} else {aac.adtsHeader}
      ensures Valid() && fresh(Repr() - old(Repr())) && btswriter == old(btswriter) && aac != null
      ensures
        var s := old(Abs());
        if tag.aacPacketType == FlvTag.AAC_SEQHDR then
          match Adts.SpecificInfo(body)
          case Ok(c) => r.Ok? && Abs() == s.(gotAac := true, aac := c)
          case Err(_) => r.Err? && Abs() == s
        else
          && Abs() == s && (r.Ok? <==> AacData(s, tag, body).Ok?)
          && (r.Ok? ==> bwriter == AacData(s, tag, body).value)
    {
      hide Adts.SpecificInfo, AacData, Valid, Sound, ValidState;
      NeedAac();
      if tag.aacPacketType == FlvTag.AAC_SEQHDR {
        r := StoreConfig(body);
      } else {
        r := WrapFrame(tag, body);
      }
    }

    /** The time stamp of an audio frame, moved onto the expected one when it is close. */
    method AlignAudio(ts: u32)
      requires Valid() && aac != null
      modifies this`dts, this`pts, align
      ensures Valid() && (pts, Abs()) == Align(old(Abs()), ts * 90) && dts == pts
    {
      hide SampleRate, Matches, Last, StoredAll, ValidCounters;
      dts := ts * 90;
      dts := align.Align(dts, 90000 * 1024 / SampleRate(aac.config));
      pts := dts;
    }

    method CalcAudioPts(ts: u32)
      requires Valid() && aac != null
      modifies this`dts, this`pts, stat, align
      ensures Valid() && (pts, Abs()) == Align(Update(old(Abs()), ts), ts * 90) && dts == pts
    {
      hide Valid, Sound, ValidState, Align, Abs;
      NoteStamp(ts);
      AlignAudio(ts);
    }

    method CacheFrame()
      requires Valid()
      modifies cache
      ensures Sound() && Abs() == CacheAudio(old(Abs()), bwriter, pts)
    {
      hide Matches, Last, StoredAll, ValidCounters;
      cache.Cache(bwriter, pts);
    }

    method TakeAudioData(ts: u32)
      requires Valid() && btswriter != null && aac != null
      modifies this`dts, this`pts, stat, align, cache, muxer, muxer.tsPacket, btswriter
      ensures Valid() && Abs() == Segments.TakeAudio(old(Abs()), ts, bwriter)
    {
      hide Align, CacheAudio, Segments.MuxAudio, ValidState;
      CalcAudioPts(ts);
      CacheFrame();
      MuxAudio(MAX_CACHED_FRAMES);
    }

    method TakeAudioPacket(p: Packet, tag: FlvTag.Tag, body: seq<byte>)
      requires Valid()
      modifies Repr()
      ensures Valid() && fresh(Repr() - old(Repr())) && Abs() == StepAudio(old(Abs()), p, tag, body)
    {
      hide Segments.TakeAudio, AacData, Adts.SpecificInfo, Valid, Sound, ValidState;
      if tag.soundFormat != FlvTag.SOUND_AAC { return; }
      var r := ParseAudio(tag, body);
      if tag.aacPacketType == FlvTag.AAC_SEQHDR || r.Err? || btswriter == null { return; }
      TakeAudioData(p.ts);
    }

    /** One packet from the queue; an unreadable tag ends the segmenter. */
    method TakePacket(p: Packet, name: string) returns (r: Result<()>)
      requires Valid()
      modifies Repr()
      ensures Valid() && fresh(Repr() - old(Repr()))
      ensures match Step(old(Abs()), p)
              case Continue(s) => r.Ok? && Abs() == s
              case Stop => r.Err? && Abs() == old(Abs())
    {
      r := Ok(());
      if p.isMetadata { return; }
      var tag := FlvTag.ParseTag(p.data, p.isVideo);
      if tag.Err? { return Err(Invalid); }
      if tag.value.tag.codecId == FlvTag.CODEC_AVC && |p.data| >= 2 && p.data[0] == 0x17 && p.data[1] == 2 { return; }
      if p.isVideo {
        TakeVideoPacket(p, tag.value.tag, p.data[tag.value.n..], name);
      } else {
        TakeAudioPacket(p, tag.value.tag, p.data[tag.value.n..]);
      }
    }

    /** The segmenter's loop over what its queue delivers; `nameOf` stands for the clock that names segments. */
    method SendPacket(queue: seq<Packet>, nameOf: nat -> string)
      requires Valid()
      modifies Repr()
      ensures Valid() && fresh(Repr() - old(Repr()))
      ensures Abs() == Run(old(Abs()), queue)
    {
      hide Step, ValidState, Sound;
      var i := 0;
      while i < |queue|
        invariant 0 <= i <= |queue| && Valid() && fresh(Repr() - old(Repr()))
        invariant Run(old(Abs()), queue) == Run(Abs(), queue[i..])
      {
        assert queue[i..][1..] == queue[i + 1..];
        var r := TakePacket(queue[i], nameOf(i));
        if r.Err? { return; }
        i := i + 1;
      }
    }
  }
}
