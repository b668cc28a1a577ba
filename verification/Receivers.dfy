/** What a receiver gets out of transport stream packets: the elementary streams and their counters. */
module Receivers {
  import opened Bytes
  import opened Ts
  import opened Psi
  import FlvTag

  const VIDEO_PID := 0x100
  const AUDIO_PID := 0x101

  /** The elementary stream bytes in one packet: a PES header is as long as its ninth byte says. */
  function Content(pid: nat, p: seq<byte>): seq<byte>
    requires |p| == PACKET_LEN
  {
    var load := Payload(p);
    if Pid(p) != pid then []
    else if !Starts(p) then load
    else if |load| >= 9 && 9 + load[8] <= |load| then load[9 + load[8]..]
    else []
  }

  /** The elementary stream of one PID in a stream of packets. */
  function Demux(pid: nat, s: seq<byte>): seq<byte>
    decreases |s|
  { if |s| < PACKET_LEN then [] else Content(pid, s[..PACKET_LEN]) + Demux(pid, s[PACKET_LEN..]) }

  lemma Cons(p: seq<byte>, s: seq<byte>, rest: seq<byte>)
    requires |p| == PACKET_LEN
    ensures (p + s + rest)[..PACKET_LEN] == p && (p + s + rest)[PACKET_LEN..] == s + rest
    ensures (p + s)[..PACKET_LEN] == p && (p + s)[PACKET_LEN..] == s
  {}

  lemma {:induction false} DemuxAppend(pid: nat, a: seq<byte>, b: seq<byte>)
    requires |a| % PACKET_LEN == 0
    ensures Demux(pid, a + b) == Demux(pid, a) + Demux(pid, b)
    decreases |a|
  {
    if a == [] { EmptyUnit(b); EmptyUnit(Demux(pid, b)); } else {
      var p, t := a[..PACKET_LEN], a[PACKET_LEN..];
      assert a == p + t;
      Cons(p, t, b);
      DemuxAppend(pid, t, b);
      Assoc(Content(pid, p), Demux(pid, t), Demux(pid, b));
    }
  }

  lemma DemuxOne(pid: nat, p: seq<byte>)
    requires |p| == PACKET_LEN
    ensures Demux(pid, p) == Content(pid, p)
  {
    TakeAll(p);
    EmptyUnit(Content(pid, p));
    assert p[PACKET_LEN..] == [];
  }

  function PidOf(f: Frame): nat
  { if f.video then VIDEO_PID else AUDIO_PID }

  lemma FlattenCons(p: seq<byte>, ps: seq<seq<byte>>)
    ensures Flatten([p] + ps) == p + Flatten(ps)
  { assert ([p] + ps)[1..] == ps; }

  lemma {:induction false} FlattenWhole(ps: seq<seq<byte>>)
    requires AllPackets(ps)
    ensures |Flatten(ps)| % PACKET_LEN == 0
  { if ps != [] { FlattenWhole(ps[1..]); } }

  lemma Halves<T>(s: seq<T>, k: nat)
    requires k <= |s|
    ensures s[..k] + s[k..] == s
  {}

  lemma {:induction false} DemuxRest(pid: nat, f: Frame, cc: nat, pes: seq<byte>)
    requires cc < 16
    ensures Demux(pid, Flatten(Packets(f, cc, false, pes))) == if pid == PidOf(f) then pes else []
    decreases |pes|
  {
    if pes != [] {
      var k := Share(f, false, |pes|);
      var p, ps := TsPacket(f, NextCc(cc), false, pes), Packets(f, NextCc(cc), false, pes[k..]);
      PacketHeader(f, NextCc(cc), false, pes);
      PacketPayload(f, NextCc(cc), false, pes);
      DemuxRest(pid, f, NextCc(cc), pes[k..]);
      assert Content(pid, p) == if pid == PidOf(f) then pes[..k] else [];
      assert Packets(f, cc, false, pes) == [p] + ps && |p| == PACKET_LEN;
      hide *;
      FlattenCons(p, ps);
      DemuxAppend(pid, p, Flatten(ps));
      DemuxOne(pid, p);
      if pid == PidOf(f) { Halves(pes, k); } else { EmptyUnit<byte>([]); }
    }
  }

  lemma HeaderSize(f: Frame)
    ensures |PesHeader(f)| >= 9 && |PesHeader(f)| == 9 + PesHeader(f)[8]
  {}

  lemma FirstContent(pid: nat, f: Frame, cc: nat)
    requires cc < 16 && (pid == PidOf(f) ==> Fits(f))
    ensures
      var k := Share(f, true, |Pes(f)|);
      && |PesHeader(f)| <= k <= |Pes(f)|
      && Content(pid, TsPacket(f, cc, true, Pes(f))) == if pid == PidOf(f) then Pes(f)[|PesHeader(f)|..k] else []
  {
    var pes := Pes(f);
    var k := Share(f, true, |pes|);
    PacketHeader(f, cc, true, pes);
    PacketPayload(f, cc, true, pes);
    HeaderSize(f);
    assert pes == PesHeader(f) + f.data;
    hide PesHeader, TsPacket;
    if pid == PidOf(f) {
      var load := pes[..k];
      assert load[8] == PesHeader(f)[8];
      assert load[|PesHeader(f)|..] == pes[|PesHeader(f)|..k];
    }
  }

  lemma FramePackets(c: Counters, f: Frame)
    requires ValidCounters(c)
    ensures
      var cc := NextCc(if f.video then c.video else c.audio);
      && Share(f, true, |Pes(f)|) <= |Pes(f)|
      && MuxPackets(c, f) == [TsPacket(f, cc, true, Pes(f))] + Packets(f, cc, false, Pes(f)[Share(f, true, |Pes(f)|)..])
  {}

  lemma Rejoined(f: Frame, k: nat)
    requires |PesHeader(f)| <= k <= |Pes(f)|
    ensures Pes(f)[|PesHeader(f)|..k] + Pes(f)[k..] == f.data
  {}

  /** A receiver gets the data of a frame that fits, and nothing on the other PID. */
  lemma DemuxFrame(pid: nat, c: Counters, f: Frame)
    requires ValidCounters(c) && (pid == PidOf(f) ==> Fits(f))
    ensures Demux(pid, Flatten(MuxPackets(c, f))) == if pid == PidOf(f) then f.data else []
  {
    var cc := NextCc(if f.video then c.video else c.audio);
    FirstContent(pid, f, cc);
    FramePackets(c, f);
    var k := Share(f, true, |Pes(f)|);
    var p, ps := TsPacket(f, cc, true, Pes(f)), Packets(f, cc, false, Pes(f)[k..]);
    hide *;
    DemuxRest(pid, f, cc, Pes(f)[k..]);
    FlattenCons(p, ps);
    DemuxAppend(pid, p, Flatten(ps));
    DemuxOne(pid, p);
    if pid == PidOf(f) { Rejoined(f, k); } else { EmptyUnit<byte>([]); }
  }

  // ---- a run of frames ----

  /** The counters after a run of frames. */
  function CountersAfter(c: Counters, fs: seq<Frame>): (c': Counters)
    requires ValidCounters(c)
    ensures ValidCounters(c')
    decreases |fs|
  { if fs == [] then c else CountersAfter(MuxCounters(c, fs[0]), fs[1..]) }

  lemma {:induction false} RunSnoc(c: Counters, fs: seq<Frame>, f: Frame)
    requires ValidCounters(c)
    ensures RunPackets(c, fs + [f]) == RunPackets(c, fs) + MuxPackets(CountersAfter(c, fs), f)
    ensures CountersAfter(c, fs + [f]) == MuxCounters(CountersAfter(c, fs), f)
    decreases |fs|
  {
    if fs == [] {
      assert [f][1..] == [];
      EmptyUnit(MuxPackets(c, f));
    } else {
      TailOfAppend(fs, [f]);
      RunSnoc(MuxCounters(c, fs[0]), fs[1..], f);
      hide MuxPackets, MuxCounters;
      Assoc(MuxPackets(c, fs[0]), RunPackets(MuxCounters(c, fs[0]), fs[1..]), MuxPackets(CountersAfter(c, fs), f));
    }
  }

  lemma Snoc<T>(s: seq<T>, x: T)
    ensures (s + [x])[..|s|] == s && (s + [x])[|s|] == x && s + [x] != []
  {}

  /** The data of the frames on one PID. */
  function DataOf(pid: nat, fs: seq<Frame>): seq<byte>
  {
    if fs == [] then [] else
      var f := fs[|fs| - 1];
      DataOf(pid, fs[..|fs| - 1]) + if pid == PidOf(f) then f.data else []
  }

  predicate AllFit(fs: seq<Frame>)
  { forall i | 0 <= i < |fs| :: Fits(fs[i]) }

  lemma RunWhole(c: Counters, fs: seq<Frame>)
    requires ValidCounters(c)
    ensures |Flatten(RunPackets(c, fs))| % PACKET_LEN == 0
  { FlattenWhole(RunPackets(c, fs)); }

  /** A receiver of one PID gets the data of its frames if they all fit, whatever is muxed between them. */
  lemma {:induction false} DemuxRun(pid: nat, c: Counters, fs: seq<Frame>)
    requires ValidCounters(c) && forall i | 0 <= i < |fs| && pid == PidOf(fs[i]) :: Fits(fs[i])
    ensures Demux(pid, Flatten(RunPackets(c, fs))) == DataOf(pid, fs)
    decreases |fs|
  {
    if fs != [] {
      var before, f := fs[..|fs| - 1], fs[|fs| - 1];
      assert fs == before + [f] && (pid == PidOf(f) ==> Fits(f));
      DemuxRun(pid, c, before);
      hide *;
      RunSnoc(c, before, f);
      RunWhole(c, before);
      FlattenAppend(RunPackets(c, before), MuxPackets(CountersAfter(c, before), f));
      DemuxAppend(pid, Flatten(RunPackets(c, before)), Flatten(MuxPackets(CountersAfter(c, before), f)));
      DemuxFrame(pid, CountersAfter(c, before), f);
      DataSnoc(pid, before, f);
    }
  }

  lemma DataSnoc(pid: nat, fs: seq<Frame>, f: Frame)
    ensures DataOf(pid, fs + [f]) == DataOf(pid, fs) + if pid == PidOf(f) then f.data else []
  { Snoc(fs, f); }

  predicate IsElementary(p: seq<byte>)
    requires |p| == PACKET_LEN
  { Pid(p) == VIDEO_PID || Pid(p) == AUDIO_PID }

  /** The audio and video packets of a stream. */
  function Elementary(s: seq<byte>): (ps: seq<seq<byte>>)
    ensures AllPackets(ps)
    decreases |s|
  {
    if |s| < PACKET_LEN then [] else
      (if IsElementary(s[..PACKET_LEN]) then [s[..PACKET_LEN]] else []) + Elementary(s[PACKET_LEN..])
  }

  lemma {:induction false} ElementaryAppend(a: seq<byte>, b: seq<byte>)
    requires |a| % PACKET_LEN == 0
    ensures Elementary(a + b) == Elementary(a) + Elementary(b)
    decreases |a|
  {
    if a == [] { EmptyUnit(b); EmptyUnit(Elementary(b)); } else {
      var p, t := a[..PACKET_LEN], a[PACKET_LEN..];
      assert a == p + t;
      Cons(p, t, b);
      ElementaryAppend(t, b);
      Assoc(if IsElementary(p) then [p] else [], Elementary(t), Elementary(b));
    }
  }

  lemma ElementaryOne(p: seq<byte>)
    requires |p| == PACKET_LEN
    ensures Elementary(p) == if IsElementary(p) then [p] else []
  {
    TakeAll(p);
    assert p[PACKET_LEN..] == [];
    EmptyUnit(if IsElementary(p) then [p] else []);
  }

  lemma {:induction false} ElementaryOfPackets(f: Frame, cc: nat, first: bool, pes: seq<byte>)
    requires cc < 16
    ensures Elementary(Flatten(Packets(f, cc, first, pes))) == Packets(f, cc, first, pes)
    decreases |pes|
  {
    if pes != [] {
      var k := Share(f, first, |pes|);
      var p, ps := TsPacket(f, NextCc(cc), first, pes), Packets(f, NextCc(cc), false, pes[k..]);
      PacketHeader(f, NextCc(cc), first, pes);
      ElementaryOfPackets(f, NextCc(cc), false, pes[k..]);
      assert Packets(f, cc, first, pes) == [p] + ps && IsElementary(p) && |p| == PACKET_LEN;
      hide *;
      FlattenCons(p, ps);
      ElementaryAppend(p, Flatten(ps));
      ElementaryOne(p);
    }
  }

  lemma {:induction false} ElementaryRun(c: Counters, fs: seq<Frame>)
    requires ValidCounters(c)
    ensures Elementary(Flatten(RunPackets(c, fs))) == RunPackets(c, fs)
    decreases |fs|
  {
    if fs != [] {
      var before, f := fs[..|fs| - 1], fs[|fs| - 1];
      var c1 := CountersAfter(c, before);
      assert fs == before + [f];
      ElementaryRun(c, before);
      ElementaryOfPackets(f, if f.video then c1.video else c1.audio, true, Pes(f));
      assert Elementary(Flatten(MuxPackets(c1, f))) == MuxPackets(c1, f);
      hide *;
      RunSnoc(c, before, f);
      RunWhole(c, before);
      FlattenAppend(RunPackets(c, before), MuxPackets(c1, f));
      ElementaryAppend(Flatten(RunPackets(c, before)), Flatten(MuxPackets(c1, f)));
    }
  }

  // ---- the tables before them ----

  /** A PAT and a PMT with the same counter. */
  function Tables(cc: nat): (t: seq<byte>)
    requires cc < 16
    ensures |t| == 2 * PACKET_LEN
  { PatPacket(cc) + PmtPacket(cc, FlvTag.SOUND_AAC, true) }

  lemma OtherPid(pid: nat, p: seq<byte>)
    requires |p| == PACKET_LEN && Pid(p) != pid
    ensures Content(pid, p) == []
  {}

  lemma NoContent(pid: nat, cc: nat)
    requires cc < 16 && (pid == AUDIO_PID || pid == VIDEO_PID)
    ensures Demux(pid, Tables(cc)) == []
  {
    var a, b := PatPacket(cc), PmtPacket(cc, FlvTag.SOUND_AAC, true);
    TablesVerify(cc, FlvTag.SOUND_AAC, true);
    assert Tables(cc) == a + b;
    hide *;
    OtherPid(pid, a);
    OtherPid(pid, b);
    DemuxAppend(pid, a, b);
    DemuxOne(pid, a);
    DemuxOne(pid, b);
    EmptyUnit<byte>([]);
  }

  lemma NotElementary(p: seq<byte>)
    requires |p| == PACKET_LEN && (Pid(p) == 0 || Pid(p) == 0x1001)
    ensures Elementary(p) == []
  {
    ElementaryOne(p);
    hide Elementary, Pid;
  }

  lemma NoElementary(cc: nat)
    requires cc < 16
    ensures Elementary(Tables(cc)) == []
  {
    var a, b := PatPacket(cc), PmtPacket(cc, FlvTag.SOUND_AAC, true);
    hide PatPacket, PmtPacket, SectionOf, Pid, Elementary;
    TablesVerify(cc, FlvTag.SOUND_AAC, true);
    assert Tables(cc) == a + b;
    hide *;
    NotElementary(a);
    NotElementary(b);
    ElementaryAppend(a, b);
    EmptyUnit<seq<byte>>([]);
  }
}
