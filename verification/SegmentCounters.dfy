/** Continuity counters across segment boundaries: a player may join the segments without a discontinuity. */
module SegmentCounters {
  import opened Av
  import opened Bytes
  import opened Ts
  import opened Receivers
  import opened SegmentCuts
  import opened Segments
  import opened SegmentProofs

  const ZERO := Counters(0, 0)

  function Concat(segs: seq<Segment>): seq<byte>
  { if segs == [] then [] else Concat(segs[..|segs| - 1]) + segs[|segs| - 1].data }

  /** The frames of several segments. */
  function Frames(log: seq<seq<Frame>>): seq<Frame>
  { if log == [] then [] else Frames(log[..|log| - 1]) + log[|log| - 1] }

  lemma {:induction false} RunAppend(c: Counters, a: seq<Frame>, b: seq<Frame>)
    requires ValidCounters(c)
    ensures RunPackets(c, a + b) == RunPackets(c, a) + RunPackets(CountersAfter(c, a), b)
    ensures CountersAfter(c, a + b) == CountersAfter(CountersAfter(c, a), b)
    decreases |b|
  {
    if b == [] {
      EmptyUnit(a);
      EmptyUnit(RunPackets(c, a));
    } else {
      var before, f := b[..|b| - 1], b[|b| - 1];
      assert b == before + [f];
      var c1 := CountersAfter(c, a);
      hide *;
      Assoc(a, before, [f]);
      RunAppend(c, a, before);
      RunSnoc(c, a + before, f);
      RunSnoc(c1, before, f);
      Assoc(RunPackets(c, a), RunPackets(c1, before), MuxPackets(CountersAfter(c1, before), f));
    }
  }

  lemma SegmentPackets(k: nat, c: Counters, fs: seq<Frame>)
    requires ValidCounters(c)
    ensures |SegmentData(k, c, fs)| % PACKET_LEN == 0 && Elementary(SegmentData(k, c, fs)) == RunPackets(c, fs)
  {
    SegmentParts(k, c, fs);
    var t, ps := Tables(k % 16), Flatten(RunPackets(c, fs));
    hide *;
    NoElementary(k % 16);
    RunWhole(c, fs);
    ElementaryRun(c, fs);
    ElementaryBehind(t, ps);
  }

  lemma ElementaryBehind(t: seq<byte>, ps: seq<byte>)
    requires |t| == 2 * PACKET_LEN && Elementary(t) == [] && |ps| % PACKET_LEN == 0
    ensures Elementary(t + ps) == Elementary(ps) && |t + ps| % PACKET_LEN == 0
  {
    hide Elementary;
    ElementaryAppend(t, ps);
    EmptyUnit(Elementary(ps));
  }

  /** One more segment, pushed or open, behind those whose packets are known. */
  lemma PacketsSnoc(d: seq<byte>, log: seq<seq<Frame>>, k: nat, fs: seq<Frame>)
    requires |d| % PACKET_LEN == 0 && Elementary(d) == RunPackets(ZERO, Frames(log))
    requires StartOf(log) == CountersAfter(ZERO, Frames(log))
    ensures
      var more := d + SegmentData(k, StartOf(log), fs);
      && |more| % PACKET_LEN == 0 && Elementary(more) == RunPackets(ZERO, Frames(log + [fs]))
      && StartOf(log + [fs]) == CountersAfter(ZERO, Frames(log + [fs]))
  {
    Receivers.Snoc(log, fs);
    assert Frames(log + [fs]) == Frames(log) + fs;
    StartSnoc(log, fs);
    var c := StartOf(log);
    hide *;
    SegmentPackets(k, c, fs);
    ElementaryAppend(d, SegmentData(k, c, fs));
    RunAppend(ZERO, Frames(log), fs);
    WholeSum(d, SegmentData(k, c, fs));
  }

  lemma WholeSum(a: seq<byte>, b: seq<byte>)
    requires |a| % PACKET_LEN == 0 && |b| % PACKET_LEN == 0
    ensures |a + b| % PACKET_LEN == 0
  {}

  lemma {:induction false} PushedPackets(segs: seq<Segment>, groups: seq<seq<Media>>, log: seq<seq<Frame>>)
    requires Pushed(segs, groups, log)
    ensures |Concat(segs)| % PACKET_LEN == 0 && Elementary(Concat(segs)) == RunPackets(ZERO, Frames(log))
    ensures StartOf(log) == CountersAfter(ZERO, Frames(log))
    decreases |segs|
  {
    hide *;
    if segs != [] {
      var n := |segs| - 1;
      PushedPrefix(segs, groups, log);
      PushedLast(segs, groups, log);
      PushedPackets(segs[..n], groups[..n], log[..n]);
      PacketsSnoc(Concat(segs[..n]), log[..n], n, log[n]);
      assert log == log[..n] + [log[n]];
      ConcatLast(segs);
    } else {
      NoPackets(groups, log);
    }
  }

  lemma ConcatLast(segs: seq<Segment>)
    requires segs != []
    ensures Concat(segs) == Concat(segs[..|segs| - 1]) + segs[|segs| - 1].data
  {}

  lemma NoPackets(groups: seq<seq<Media>>, log: seq<seq<Frame>>)
    requires Pushed([], groups, log)
    ensures |Concat([])| % PACKET_LEN == 0 && Elementary(Concat([])) == Elementary([])
    ensures Elementary([]) == RunPackets(ZERO, Frames(log))
    ensures StartOf(log) == CountersAfter(ZERO, Frames(log))
  {}

  lemma PushedPrefix(segs: seq<Segment>, groups: seq<seq<Media>>, log: seq<seq<Frame>>)
    requires Pushed(segs, groups, log) && segs != []
    ensures var n := |segs| - 1; |segs| == |groups| == |log| && Pushed(segs[..n], groups[..n], log[..n])
  {
    var n := |segs| - 1;
    hide GoodSegment, StartOf;
    assert forall k | 0 <= k < n :: log[..n][..k] == log[..k];
  }

  lemma PushedLast(segs: seq<Segment>, groups: seq<seq<Media>>, log: seq<seq<Frame>>)
    requires Pushed(segs, groups, log) && segs != []
    ensures var n := |segs| - 1; |log| == |segs| && segs[n].data == SegmentData(n, StartOf(log[..n]), log[n])
  {
    var n := |segs| - 1;
    assert GoodSegment(segs[n], n, StartOf(log[..n]), log[n], groups[n]);
    hide StartOf, SegmentData, Carries;
  }

  /** Over all segments of any run and the open one, the counter of each PID rises by one per packet. */
  lemma SegmentsContinue(ps: seq<Packet>)
    ensures var s := Run(INITIAL, ps); Continuous(ZERO, Elementary(Concat(s.pushed) + s.out))
  {
    var s, g := Run(INITIAL, ps), Grouped(Offer(NOTHING, ps).taken);
    var log := SegmentsExact(ps);
    hide Run, Pushed, Grouped, StartOf, RunPackets, Frames, CountersAfter, Elementary, Concat, Continuous, SegmentData;
    PushedPackets(s.pushed, g.closed, log.closed);
    if s.open {
      PacketsSnoc(Concat(s.pushed), log.closed, |s.pushed|, log.open);
      RunContinuous(ZERO, Frames(log.closed + [log.open]));
    } else {
      EmptyUnit(Concat(s.pushed));
      RunContinuous(ZERO, Frames(log.closed));
    }
  }
}
