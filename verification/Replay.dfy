/** What the caches of a channel hold, and what a player that joins late is sent. */
module Replay {
  import Av
  import opened Bytes
  import FlvTag

  const MAX_GOP := 1024

  /** A pointer to a packet with its parsed header; `id` tells pointers apart. */
  datatype Ref = Ref(id: nat, packet: Av.Packet, tag: FlvTag.Tag) {
    predicate IsAudioHeader()
    {
      && !packet.isMetadata && packet.isAudio
      && tag.soundFormat == FlvTag.SOUND_AAC && tag.aacPacketType == FlvTag.AAC_SEQHDR
    }

    /** Video that is no sequence header. */
    predicate IsFrame()
    { !packet.isMetadata && !packet.isAudio && !(tag.frameType == 1 && tag.avcPacketType == 0) }

    predicate IsKey()
    { IsFrame() && tag.frameType == 1 }
  }

  // ---- the group of pictures ----

  datatype Gop = Gop(packets: seq<Ref>, isComplete: bool)

  function GopWrite(g: Gop, p: Ref): Gop
  {
    if |g.packets| >= MAX_GOP then g
    else if p.tag.IsKeyFrame() then Gop([p], true)
    else if g.isComplete then Gop(g.packets + [p], true)
    else g
  }

  /** The group after the frames `fs`. */
  function GopOf(fs: seq<Ref>): Gop
  { if fs == [] then Gop([], false) else GopWrite(GopOf(fs[..|fs| - 1]), fs[|fs| - 1]) }

  /** The frames from the latest key frame on; none before the first one. */
  function SinceKey(fs: seq<Ref>): (r: seq<Ref>)
    ensures |r| <= |fs| && r == fs[|fs| - |r|..]
  {
    if fs == [] then []
    else if fs[|fs| - 1].tag.frameType == 1 then [fs[|fs| - 1]]
    else
      var r := SinceKey(fs[..|fs| - 1]);
      if r == [] then [] else r + [fs[|fs| - 1]]
  }

  /** A group reached the limit and another frame came. */
  predicate Overflow(fs: seq<Ref>)
  { fs != [] && (|SinceKey(fs[..|fs| - 1])| >= MAX_GOP || Overflow(fs[..|fs| - 1])) }

  predicate Distinct(fs: seq<Ref>)
  { forall i, j | 0 <= i < j < |fs| :: fs[i] != fs[j] }

  /** One more frame, for a group that is not full. */
  lemma GopStep(g: Gop, p: Ref)
    requires |g.packets| < MAX_GOP && (g.isComplete <==> g.packets != [])
    ensures
      var g', r := GopWrite(g, p), g.packets;
      && g'.packets == (if p.tag.frameType == 1 then [p] else if r == [] then [] else r + [p])
      && (g'.isComplete <==> g'.packets != [])
  {}

  lemma SinceKeySnoc(fs: seq<Ref>, p: Ref)
    ensures
      var r := SinceKey(fs);
      SinceKey(fs + [p]) == if p.tag.frameType == 1 then [p] else if r == [] then [] else r + [p]
    ensures !Overflow(fs + [p]) ==> !Overflow(fs) && |SinceKey(fs)| < MAX_GOP
  { assert (fs + [p])[..|fs|] == fs && (fs + [p])[|fs|] == p; }

  lemma {:induction false} GopSound(fs: seq<Ref>)
    requires !Overflow(fs)
    ensures GopOf(fs).packets == SinceKey(fs) && (GopOf(fs).isComplete <==> SinceKey(fs) != [])
  {
    if fs != [] {
      var init, p := fs[..|fs| - 1], fs[|fs| - 1];
      assert fs == init + [p];
      hide *;
      SinceKeySnoc(init, p);
      GopSound(init);
      GopSnoc(init, p);
      GopStep(GopOf(init), p);
    }
  }

  /** A full group is never replaced, not even by a key frame. */
  lemma {:induction false} Frozen(fs: seq<Ref>, more: seq<Ref>)
    requires |GopOf(fs).packets| >= 1024
    ensures GopOf(fs + more) == GopOf(fs)
  {
    if more == [] { EmptyUnit(fs); } else {
      var init := more[..|more| - 1];
      Frozen(fs, init);
      assert (fs + more)[..|fs + more| - 1] == fs + init;
    }
  }

  lemma {:induction false} FirstOverflow(fs: seq<Ref>) returns (k: nat)
    requires Overflow(fs)
    ensures k < |fs| && !Overflow(fs[..k]) && |SinceKey(fs[..k])| >= MAX_GOP
  {
    var init := fs[..|fs| - 1];
    if Overflow(init) {
      k := FirstOverflow(init);
      assert init[..k] == fs[..k];
    } else {
      k := |init|;
      assert fs[..k] == init;
    }
  }

  /** A group of 1024 frames was followed by another frame. */
  lemma {:induction false} OverflowExact(fs: seq<Ref>)
    ensures Overflow(fs) <==> exists k | 0 <= k < |fs| :: |SinceKey(fs[..k])| >= 1024
  {
    hide SinceKey;
    if fs != [] {
      var n := |fs| - 1;
      var init := fs[..n];
      OverflowExact(init);
      assert forall k | 0 <= k <= n :: init[..k] == fs[..k];
      assert fs[..n] == init;
    }
  }

  lemma EndsLast(fs: seq<Ref>)
    ensures SinceKey(fs) != [] ==> SinceKey(fs)[|SinceKey(fs)| - 1] == fs[|fs| - 1]
  {}

  /** The group is the frames since the latest key frame exactly until a full group overflows. */
  lemma GopExact(fs: seq<Ref>)
    requires Distinct(fs)
    ensures GopOf(fs).packets == SinceKey(fs) <==> !Overflow(fs)
    ensures GopOf(fs).packets == SinceKey(fs) <==> forall k | 0 <= k < |fs| :: |SinceKey(fs[..k])| < 1024
  {
    OverflowExact(fs);
    if Overflow(fs) {
      var k := FirstOverflow(fs);
      var init := fs[..k];
      GopSound(init);
      Frozen(init, fs[k..]);
      assert init + fs[k..] == fs;
      EndsLast(init);
      EndsLast(fs);
      assert init[k - 1] == fs[k - 1] != fs[|fs| - 1];
    } else { GopSound(fs); }
  }

  // ---- the cache of a channel ----

  datatype Caches = Caches(metadata: Option<Ref>, videoSeq: Option<Ref>, audioSeq: Option<Ref>, gop: Gop)

  function CacheWrite(c: Caches, p: Ref): Caches
  {
    if p.packet.isMetadata then c.(metadata := Some(p))
    else if p.packet.isAudio then (if p.IsAudioHeader() then c.(audioSeq := Some(p)) else c)
    else if p.tag.IsSeq() then c.(videoSeq := Some(p))
    else c.(gop := GopWrite(c.gop, p))
  }

  /** The cache after the packets `h`. */
  function CacheOf(h: seq<Ref>): Caches
  { if h == [] then Caches(None, None, None, Gop([], false)) else CacheWrite(CacheOf(h[..|h| - 1]), h[|h| - 1]) }

  function One(o: Option<Ref>): seq<Ref>
  { if o.Some? then [o.value] else [] }

  /** What a new player is sent: metadata, video header, audio header, group. */
  function Replayed(c: Caches): seq<Ref>
  { One(c.metadata) + One(c.videoSeq) + One(c.audioSeq) + if c.gop.isComplete then c.gop.packets else [] }

  function Frames(h: seq<Ref>): seq<Ref>
  { if h == [] then [] else Frames(h[..|h| - 1]) + if h[|h| - 1].IsFrame() then [h[|h| - 1]] else [] }

  lemma {:induction false} FramesAppend(a: seq<Ref>, b: seq<Ref>)
    ensures Frames(a + b) == Frames(a) + Frames(b)
  {
    if b == [] { EmptyUnit(a); EmptyUnit(Frames(a)); } else {
      var init := b[..|b| - 1];
      assert (a + b)[..|a + b| - 1] == a + init;
      FramesAppend(a, init);
    }
  }

  predicate AllFrames(fs: seq<Ref>)
  { forall i | 0 <= i < |fs| :: fs[i].IsFrame() }

  lemma {:induction false} FramesOfFrames(fs: seq<Ref>)
    requires AllFrames(fs)
    ensures Frames(fs) == fs
  { if fs != [] { FramesOfFrames(fs[..|fs| - 1]); assert fs == fs[..|fs| - 1] + [fs[|fs| - 1]]; } }

  datatype Header = Metadata | VideoHeader | AudioHeader

  predicate Is(k: Header, p: Ref)
  {
    match k
    case Metadata => p.packet.isMetadata
    case VideoHeader =>
      !p.packet.isMetadata && !p.packet.isAudio && p.tag.frameType == 1 && p.tag.avcPacketType == 0
    case AudioHeader =>
      !p.packet.isMetadata && p.packet.isAudio && p.tag.soundFormat == 10 && p.tag.aacPacketType == 0
  }

  /** The latest header of a kind. */
  function Latest(k: Header, h: seq<Ref>): (r: Option<Ref>)
    ensures r.Some? ==> Is(k, r.value) && r.value in h
  { if h == [] then None else if Is(k, h[|h| - 1]) then Some(h[|h| - 1]) else Latest(k, h[..|h| - 1]) }

  lemma GopSnoc(fs: seq<Ref>, p: Ref)
    ensures GopOf(fs + [p]) == GopWrite(GopOf(fs), p)
  { assert (fs + [p])[..|fs|] == fs; }

  lemma GopFrames(g: Gop, p: Ref)
    requires AllFrames(g.packets) && p.IsFrame()
    ensures AllFrames(GopWrite(g, p).packets)
  {}

  predicate Holds(c: Caches, h: seq<Ref>)
  {
    && c.metadata == Latest(Metadata, h) && c.videoSeq == Latest(VideoHeader, h) && c.audioSeq == Latest(AudioHeader, h)
    && c.gop == GopOf(Frames(h)) && AllFrames(Frames(h)) && AllFrames(c.gop.packets)
  }

  lemma LatestSnoc(k: Header, h: seq<Ref>, p: Ref)
    ensures Latest(k, h + [p]) == if Is(k, p) then Some(p) else Latest(k, h)
  { assert (h + [p])[..|h|] == h; }

  lemma FramesSnoc(h: seq<Ref>, p: Ref)
    ensures Frames(h + [p]) == if p.IsFrame() then Frames(h) + [p] else Frames(h)
  {
    assert (h + [p])[..|h|] == h;
    EmptyUnit(Frames(h));
  }

  /** Each packet is of one kind at most, and goes to the cache of its kind. */
  lemma WriteKinds(c: Caches, p: Ref)
    ensures
      CacheWrite(c, p)
      == if Is(Metadata, p) then c.(metadata := Some(p))
         else if Is(AudioHeader, p) then c.(audioSeq := Some(p))
         else if Is(VideoHeader, p) then c.(videoSeq := Some(p))
         else if p.IsFrame() then c.(gop := GopWrite(c.gop, p))
         else c
    ensures Is(Metadata, p) || p.IsFrame() ==> !Is(AudioHeader, p) && !Is(VideoHeader, p)
    ensures !(Is(Metadata, p) && p.IsFrame()) && !(Is(AudioHeader, p) && Is(VideoHeader, p))
  { hide GopWrite; }

  lemma CacheSnoc(h: seq<Ref>, p: Ref)
    requires Holds(CacheOf(h), h)
    ensures Holds(CacheOf(h + [p]), h + [p])
  {
    assert (h + [p])[..|h|] == h;
    assert CacheOf(h + [p]) == CacheWrite(CacheOf(h), p);
    hide GopOf, GopWrite, Latest, Frames, CacheOf, CacheWrite, Is, Ref.IsFrame, AllFrames;
    WriteKinds(CacheOf(h), p);
    LatestSnoc(Metadata, h, p);
    LatestSnoc(VideoHeader, h, p);
    LatestSnoc(AudioHeader, h, p);
    FramesSnoc(h, p);
    if p.IsFrame() {
      GopSnoc(Frames(h), p);
      GopFrames(GopOf(Frames(h)), p);
      FramesMore(Frames(h), p);
    }
  }

  lemma FramesMore(fs: seq<Ref>, p: Ref)
    requires AllFrames(fs) && p.IsFrame()
    ensures AllFrames(fs + [p])
  {}

  lemma {:induction false} CacheHolds(h: seq<Ref>)
    ensures Holds(CacheOf(h), h)
  {
    hide *;
    if h == [] { CacheStarts(); } else {
      var init, p := h[..|h| - 1], h[|h| - 1];
      CacheHolds(init);
      CacheSnoc(init, p);
      assert init + [p] == h;
    }
  }

  lemma CacheStarts()
    ensures Holds(CacheOf([]), [])
  {}

  // ---- a player that joined after `j` packets ----

  /** Everything sent to it: the cache as of the next packet, then each packet. */
  function Sent(h: seq<Ref>, j: nat): seq<Ref>
    requires j <= |h|
  { if |h| == j then [] else Replayed(CacheOf(h[..j + 1])) + h[j + 1..] }

  lemma SentSnoc(h: seq<Ref>, p: Ref, j: nat)
    requires j <= |h|
    ensures Sent(h + [p], j) == if j == |h| then Replayed(CacheOf(h + [p])) else Sent(h, j) + [p]
  {
    if j == |h| {
      assert (h + [p])[..j + 1] == h + [p] && (h + [p])[j + 1..] == [];
      EmptyUnit(Replayed(CacheOf(h + [p])));
    } else {
      assert (h + [p])[..j + 1] == h[..j + 1] && (h + [p])[j + 1..] == h[j + 1..] + [p];
      Assoc(Replayed(CacheOf(h[..j + 1])), h[j + 1..], [p]);
    }
  }

  lemma FramesOne(o: Option<Ref>)
    requires o.Some? ==> !o.value.IsFrame()
    ensures Frames(One(o)) == []
  { if o.Some? { assert [o.value][..0] == []; } }

  lemma {:induction false} OnlyComplete(fs: seq<Ref>)
    ensures !GopOf(fs).isComplete ==> GopOf(fs).packets == []
  { if fs != [] { OnlyComplete(fs[..|fs| - 1]); } }

  lemma FramesBehind(a: Option<Ref>, b: Option<Ref>, c: Option<Ref>, g: seq<Ref>)
    requires Frames(One(a)) == [] && Frames(One(b)) == [] && Frames(One(c)) == [] && Frames(g) == g
    ensures Frames(One(a) + One(b) + One(c) + g) == g
  {
    FramesAppend(One(a), One(b));
    FramesAppend(One(a) + One(b), One(c));
    FramesAppend(One(a) + One(b) + One(c), g);
    hide Frames, One;
    EmptyUnit<Ref>([]);
    EmptyUnit(g);
  }

  /** The frames a new player is sent are those of the group. */
  lemma ReplayedFrames(h: seq<Ref>)
    ensures Frames(Replayed(CacheOf(h))) == GopOf(Frames(h)).packets
  {
    var c := CacheOf(h);
    CacheHolds(h);
    OnlyComplete(Frames(h));
    FramesOfFrames(c.gop.packets);
    hide CacheOf, Frames, GopOf, Latest;
    FramesOne(c.metadata);
    FramesOne(c.videoSeq);
    FramesOne(c.audioSeq);
    FramesBehind(c.metadata, c.videoSeq, c.audioSeq, c.gop.packets);
  }

  lemma SameBefore<T>(a: seq<T>, b: seq<T>, c: seq<T>)
    ensures a + c == b + c <==> a == b
  {
    if a + c == b + c {
      assert |a| == |b|;
      assert a == (a + c)[..|a|] && b == (b + c)[..|b|];
    }
  }

  /** A late joiner gets the frames of the group when it was first served, then those of each packet since. */
  lemma JoinerFrames(h: seq<Ref>, j: nat)
    requires j < |h|
    ensures
      var before, after := Frames(h[..j + 1]), Frames(h[j + 1..]);
      Frames(h) == before + after && Frames(Sent(h, j)) == GopOf(before).packets + after
  {
    var past, next := h[..j + 1], h[j + 1..];
    assert h == past + next;
    assert Sent(h, j) == Replayed(CacheOf(past)) + next;
    hide *;
    FramesAppend(past, next);
    ReplayedFrames(past);
    FramesAppend(Replayed(CacheOf(past)), next);
  }

  lemma SuffixBefore<T>(a: seq<T>, r: seq<T>, b: seq<T>)
    requires |r| <= |a| && r == a[|a| - |r|..]
    ensures (a + b)[|a| - |r|..] == r + b
  {}

  lemma GroupBefore(before: seq<Ref>, after: seq<Ref>)
    ensures
      var sent, k := GopOf(before).packets + after, |before| - |SinceKey(before)|;
      && (!Overflow(before) ==> sent == (before + after)[k..])
      && (Distinct(before) && Overflow(before) ==> sent != (before + after)[k..])
  {
    hide GopOf, SinceKey, Overflow, Distinct;
    if Overflow(before) { if Distinct(before) { GopExact(before); } } else { GopSound(before); }
    SuffixBefore(before, SinceKey(before), after);
    SameBefore(GopOf(before).packets, SinceKey(before), after);
  }

  /**
   The video a late joiner gets is the publisher's from the latest key frame on, without a gap or a
   repetition: a suffix of all frames that begins at that key frame. For distinct frames this is so
   exactly until a full group overflows.
   */
  lemma LateJoiner(h: seq<Ref>, j: nat)
    requires j < |h|
    ensures
      var before, all := Frames(h[..j + 1]), Frames(h);
      var k := |before| - |SinceKey(before)|;
      && k <= |before| <= |all|
      && (!Overflow(before) ==> Frames(Sent(h, j)) == all[k..])
      && (Distinct(before) && Overflow(before) ==> Frames(Sent(h, j)) != all[k..])
      && (SinceKey(before) != [] ==> k < |before| && all[k].IsKey())
      && forall i | k < i < |before| :: !all[i].IsKey()
  {
    var before := Frames(h[..j + 1]);
    JoinerFrames(h, j);
    GroupBefore(before, Frames(h[j + 1..]));
    CacheHolds(h[..j + 1]);
    KeyFirst(before);
    hide Frames, SinceKey, CacheOf, Overflow, Latest, GopOf, Distinct, Sent, GopWrite;
  }

  lemma {:induction false} KeyFirst(fs: seq<Ref>)
    requires AllFrames(fs)
    ensures var k := |fs| - |SinceKey(fs)|;
            if SinceKey(fs) == [] then forall i | 0 <= i < |fs| :: !fs[i].IsKey()
            else fs[k].IsKey() && forall i | k < i < |fs| :: !fs[i].IsKey()
  {
    if fs != [] && !fs[|fs| - 1].tag.IsKeyFrame() {
      var init := fs[..|fs| - 1];
      KeyFirst(init);
      assert forall i | 0 <= i < |init| :: fs[i] == init[i];
    }
  }

  /** Everything it gets: the latest metadata and sequence headers, in that order, the group, all later packets. */
  lemma HeadersFirst(h: seq<Ref>, j: nat)
    requires j < |h|
    ensures
      var past := h[..j + 1];
      var group := GopOf(Frames(past)).packets;
      && Sent(h, j) == One(Latest(Metadata, past)) + One(Latest(VideoHeader, past)) + One(Latest(AudioHeader, past))
                       + group + h[j + 1..]
      && (!Overflow(Frames(past)) ==> group == SinceKey(Frames(past)))
  {
    var past := h[..j + 1];
    CacheHolds(past);
    OnlyComplete(Frames(past));
    if !Overflow(Frames(past)) { GopSound(Frames(past)); }
    hide CacheOf, Latest, Frames, GopOf, SinceKey, Overflow;
  }
}
