/** What an HLS segmenter takes in, and where its segments end, read from the packets without any muxing. */
module SegmentCuts {
  import opened Av
  import opened Bytes
  import opened Ts
  import FlvTag
  import AnnexB
  import Adts

  /** A video frame in Annex B form, or the ADTS form of one packet's audio. */
  datatype Media = Video(frame: Frame) | Audio(ts: u32, data: seq<byte>)

  function Stamp(m: Media): u32
  { if m.Video? then m.frame.ts else m.ts }

  predicate IsKey(m: Media)
  { m.Video? && m.frame.key }

  function VideoOf(ms: seq<Media>): seq<Frame>
  {
    if ms == [] then [] else
      var m := ms[|ms| - 1];
      VideoOf(ms[..|ms| - 1]) + if m.Video? then [m.frame] else []
  }

  function AudioOf(ms: seq<Media>): seq<byte>
  {
    if ms == [] then [] else
      var m := ms[|ms| - 1];
      AudioOf(ms[..|ms| - 1]) + if m.Audio? then m.data else []
  }

  function AudioOnly(ms: seq<Media>): seq<Media>
  {
    if ms == [] then [] else
      var m := ms[|ms| - 1];
      AudioOnly(ms[..|ms| - 1]) + if m.Audio? then [m] else []
  }

  // ---- what the packets say ----

  /** The parameter sets and the configuration in force, and what is taken in from the first key frame on. */
  datatype Intake = Intake(sets: seq<byte>, got: bool, config: Adts.Config, taken: seq<Media>)

  predicate ValidIntake(i: Intake)
  { i.config.sampleRate < 16 && i.config.channel < 16 && i.config.objectType < 32 }

  function Taken(i: Intake, m: Media): Intake
  { i.(taken := i.taken + [m]) }

  /** AVC only (codec 7); frame type 1 is a key frame, and with packet type 0 a sequence header. */
  function OfferVideo(i: Intake, p: Packet, tag: FlvTag.Tag, body: seq<byte>): Intake
  {
    if tag.codecId != 7 then i
    else if tag.frameType == 1 && tag.avcPacketType == 0 then i.(sets := AnnexB.StoredAfter(body, true, i.sets))
    else
      match AnnexB.Converted(body, false, i.sets)
      case Err(_) => i
      case Ok(data) =>
        if i.taken != [] || tag.frameType == 1 then
          Taken(i, Video(Frame(true, tag.frameType == 1, p.ts, tag.composition, data)))
        else i
  }

  /** AAC only (sound format 10), of which packet type 0 is a sequence header and type 1 a raw frame. */
  function OfferAudio(i: Intake, p: Packet, tag: FlvTag.Tag, body: seq<byte>): Intake
    requires ValidIntake(i)
  {
    if tag.soundFormat != 10 then i
    else if tag.aacPacketType == 0 then
      match Adts.SpecificInfo(body)
      case Ok(c) => i.(got := true, config := c)
      case Err(_) => i
    else if i.taken == [] then i
    else if tag.aacPacketType != 1 then Taken(i, Audio(p.ts, []))
    else if i.got && body != [] then Taken(i, Audio(p.ts, Adts.Frame(i.config, body)))
    else i
  }

  /** Reading stops at a tag that cannot be read. */
  function Offer(i: Intake, ps: seq<Packet>): (i': Intake)
    requires ValidIntake(i)
    ensures ValidIntake(i')
    decreases |ps|
  {
    if ps == [] then i
    else if ps[0].isMetadata then Offer(i, ps[1..])
    else
      match FlvTag.ParseTag(ps[0].data, ps[0].isVideo)
      case Err(_) => i
      case Ok(r) =>
        if r.tag.codecId == 7 && |ps[0].data| >= 2 && ps[0].data[0] == 0x17 && ps[0].data[1] == 2 then Offer(i, ps[1..])
        else if ps[0].isVideo then Offer(OfferVideo(i, ps[0], r.tag, ps[0].data[r.n..]), ps[1..])
        else Offer(OfferAudio(i, ps[0], r.tag, ps[0].data[r.n..]), ps[1..])
  }

  const NOTHING := Intake([], false, Adts.Config(0, 0, 0), [])

  // ---- where segments end ----

  /** The media of the closed segments and of the open one. */
  datatype Groups = Groups(closed: seq<seq<Media>>, open: seq<Media>)

  function Span(group: seq<Media>): int
    requires group != []
  { Stamp(group[|group| - 1]) as int - Stamp(group[0]) }

  /** A key frame ends a group that spans three seconds. */
  function Arrive(g: Groups, m: Media): Groups
  {
    if g.open != [] && IsKey(m) && Span(g.open) >= 3000 then Groups(g.closed + [g.open], [m])
    else Groups(g.closed, g.open + [m])
  }

  function Grouped(ms: seq<Media>): Groups
  { if ms == [] then Groups([], []) else Arrive(Grouped(ms[..|ms| - 1]), ms[|ms| - 1]) }

  function Joined(gs: seq<seq<Media>>): seq<Media>
  { if gs == [] then [] else Joined(gs[..|gs| - 1]) + gs[|gs| - 1] }

  /** No key frame but the first comes when the group already spans three seconds. */
  predicate Unbroken(group: seq<Media>)
  {
    group != [] && IsKey(group[0]) &&
    forall j | 0 < j < |group| && IsKey(group[j]) :: Span(group[..j]) < 3000
  }

  predicate Closable(group: seq<Media>)
  { Unbroken(group) && Span(group) >= 3000 }

  /** Groups that begin with key frames, of which the closed ones, and no shorter ones, span three seconds. */
  predicate Division(g: Groups, ms: seq<Media>)
  {
    && Joined(g.closed) + g.open == ms
    && (forall k | 0 <= k < |g.closed| :: Closable(g.closed[k]))
    && (if g.open == [] then g.closed == [] else Unbroken(g.open))
  }

  lemma Snoc<T>(s: seq<T>, x: T)
    ensures (s + [x])[..|s|] == s && (s + [x])[|s|] == x && s + [x] != []
  {}

  lemma UnbrokenSnoc(group: seq<Media>, m: Media)
    requires group != []
    ensures Unbroken(group + [m]) <==> Unbroken(group) && (IsKey(m) ==> Span(group) < 3000)
  {
    Snoc(group, m);
    var longer := group + [m];
    assert forall j | 0 < j < |group| :: longer[j] == group[j] && longer[..j] == group[..j];
    if Unbroken(longer) { assert forall j | 0 < j < |group| :: IsKey(group[j]) ==> Span(longer[..j]) < 3000; }
  }

  lemma UnbrokenOne(m: Media)
    requires IsKey(m)
    ensures Unbroken([m])
  {}

  /** The groups are a division of the media that arrive, and the only one. */
  lemma {:induction false} GroupedExact(ms: seq<Media>, g: Groups)
    requires ms != [] ==> IsKey(ms[0])
    ensures g == Grouped(ms) <==> Division(g, ms)
  {
    if ms == [] {
      if Division(g, ms) { assert g.open == []; }
    } else {
      var before, m := ms[..|ms| - 1], ms[|ms| - 1];
      assert ms == before + [m] && Grouped(ms) == Arrive(Grouped(before), m);
      assert before != [] ==> before[0] == ms[0];
      assert before == [] ==> m == ms[0];
      hide *;
      GroupedExact(before, Grouped(before));
      ArriveDivides(Grouped(before), before, m);
      if Division(g, ms) {
        var g' := Undivide(g, before, m);
        GroupedExact(before, g');
      }
    }
  }

  lemma ArriveDivides(g: Groups, before: seq<Media>, m: Media)
    requires Division(g, before) && (before == [] ==> IsKey(m))
    ensures Division(Arrive(g, m), before + [m])
  {
    var g' := Arrive(g, m);
    if g.open == [] {
      UnbrokenOne(m);
      EmptyUnit([m]);
    } else if IsKey(m) && Span(g.open) >= 3000 {
      Snoc(g.closed, g.open);
      UnbrokenOne(m);
      hide Unbroken;
      assert forall k | 0 <= k < |g.closed| :: g'.closed[k] == g.closed[k];
    } else {
      UnbrokenSnoc(g.open, m);
      Assoc(Joined(g.closed), g.open, [m]);
    }
  }

  /** A division without its last piece of media. */
  lemma Undivide(g: Groups, before: seq<Media>, m: Media) returns (g': Groups)
    requires Division(g, before + [m])
    ensures Division(g', before) && Arrive(g', m) == g
  {
    var n := |g.open|;
    var ms := before + [m];
    Snoc(before, m);
    assert n > 0 by { if n == 0 { EmptyUnit(Joined(g.closed)); } }
    var rest := g.open[..n - 1];
    assert g.open == rest + [g.open[n - 1]];
    Assoc(Joined(g.closed), rest, [g.open[n - 1]]);
    LastOf(Joined(g.closed) + rest, g.open[n - 1], before, m);
    if n > 1 {
      g' := Groups(g.closed, rest);
      UnbrokenSnoc(rest, m);
    } else if g.closed == [] {
      g' := Groups([], []);
    } else {
      var k := |g.closed| - 1;
      g' := Groups(g.closed[..k], g.closed[k]);
      assert g.closed == g'.closed + [g'.open];
      EmptyUnit(Joined(g.closed));
    }
  }

  lemma LastOf<T>(a: seq<T>, x: T, b: seq<T>, y: T)
    requires a + [x] == b + [y]
    ensures a == b && x == y
  {
    assert |a| == |b|;
    Snoc(a, x);
    Snoc(b, y);
  }
}
