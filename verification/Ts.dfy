/** MPEG transport stream packets (ISO/IEC 13818-1, sections 2.4.3.2 to 2.4.3.7) as the muxer writes them. */
module Ts {
  import opened Bytes

  const PACKET_LEN := 188
  const DATA_LEN := 184

  /** A packet handed to the muxer; `key` and `composition` come from the video tag header. */
  datatype Frame = Frame(video: bool, key: bool, ts: u32, composition: nat, data: seq<byte>)

  function Dts(f: Frame): nat
  { f.ts * 90 }

  function Pts(f: Frame): nat
  { if f.video then Dts(f) + f.composition * 90 else Dts(f) }

  // ---- clock fields ----

  /** Five bytes of a 33-bit time stamp with its marker bits. */
  function TimeStamp(fb: nat, ts: nat): (s: seq<byte>)
    requires fb <= 3
    ensures |s| == 5
  {
    var t := if ts > 0x1_ffff_ffff then ts - 0x1_ffff_ffff else ts;
    var mid, low := t / 0x8000 % 0x8000 * 2 + 1, t % 0x8000 * 2 + 1;
    [fb * 16 + t / 0x4000_0000 % 8 * 2 + 1, mid / 256, mid % 256, low / 256, low % 256]
  }

  function ReadTimeStamp(s: seq<byte>): nat
    requires |s| == 5
  {
    var high: nat := s[0] / 2 % 8;
    var mid: nat, low: nat := (256 * (s[1] as int) + s[2]) / 2, (256 * (s[3] as int) + s[4]) / 2;
    0x4000_0000 * high + 0x8000 * mid + low
  }

  /** Six bytes of a program clock reference whose extension is zero. */
  function Pcr(base: nat): (s: seq<byte>)
    ensures |s| == 6
  {
    [base / 0x200_0000 % 256, base / 0x2_0000 % 256, base / 512 % 256, base / 2 % 256, base % 2 * 128 + 0x7e, 0]
  }

  function ReadPcr(s: seq<byte>): nat
    requires |s| == 6
  { 0x200_0000 * (s[0] as int) + 0x2_0000 * (s[1] as int) + 512 * (s[2] as int) + 2 * (s[3] as int) + s[4] / 128 }

  lemma SplitMod(x: nat, a: nat, b: nat)
    requires a > 0 && b > 0
    ensures x % (a * b) == x / a % b * a + x % a
  {
    var q, r := x / a / b, x / a % b * a + x % a;
    assert x / a == b * q + x / a % b;
    assert x == a * (b * q + x / a % b) + x % a;
    assert a * (b * q) == (a * b) * q;
    assert a * (x / a % b) <= a * (b - 1);
    ModUnique(x, a * b, q, r);
  }

  lemma ReadsTimeStamp(fb: nat, ts: nat)
    requires fb <= 3
    ensures ReadTimeStamp(TimeStamp(fb, ts)) == (if ts > 0x1_ffff_ffff then ts - 0x1_ffff_ffff else ts) % 0x2_0000_0000
  {
    var t := if ts > 0x1_ffff_ffff then ts - 0x1_ffff_ffff else ts;
    var high, mid, low := t / 0x4000_0000 % 8, t / 0x8000 % 0x8000, t % 0x8000;
    assert TimeStamp(fb, ts) == [fb * 16 + high * 2 + 1, (mid * 2 + 1) / 256, (mid * 2 + 1) % 256,
                                 (low * 2 + 1) / 256, (low * 2 + 1) % 256];
    hide *;
    ReadsFields(fb, high, mid, low);
    ThreeFields(t);
  }

  lemma ThreeFields(t: nat)
    ensures 0x4000_0000 * (t / 0x4000_0000 % 8) + 0x8000 * (t / 0x8000 % 0x8000) + t % 0x8000 == t % 0x2_0000_0000
  {
    SplitMod(t, 0x8000, 0x8000);
    SplitMod(t, 0x4000_0000, 8);
  }

  lemma ReadsFields(fb: nat, high: nat, mid: nat, low: nat)
    requires fb <= 3 && high < 8 && mid < 0x8000 && low < 0x8000
    ensures
      ReadTimeStamp([fb * 16 + high * 2 + 1, (mid * 2 + 1) / 256, (mid * 2 + 1) % 256,
                     (low * 2 + 1) / 256, (low * 2 + 1) % 256])
      == 0x4000_0000 * high + 0x8000 * mid + low
  {
    assert (fb * 16 + high * 2 + 1) / 2 == fb * 8 + high;
  }

  /** The time stamp field gives back exactly the values below 2^33; above, the code's wrap is off by one. */
  lemma TimeStampExact(fb: nat, ts: nat)
    requires fb <= 3
    ensures ReadTimeStamp(TimeStamp(fb, ts)) == ts % 0x2_0000_0000 <==> ts < 0x2_0000_0000
  {
    ReadsTimeStamp(fb, ts);
    if ts >= 0x2_0000_0000 { OffByOne(ts - 0x2_0000_0000, 0x2_0000_0000); }
  }

  lemma OffByOne(t: nat, d: nat)
    requires d > 1
    ensures (t + 1) % d != (t + d) % d
  {
    if t % d == d - 1 { ModUnique(t + 1, d, t / d + 1, 0); } else { ModUnique(t + 1, d, t / d, t % d + 1); }
    ModUnique(t + d, d, t / d + 1, t % d);
  }

  lemma PcrExact(base: nat)
    ensures ReadPcr(Pcr(base)) == base % 0x2_0000_0000
  {
    SplitMod(base, 2, 256);
    SplitMod(base, 512, 256);
    SplitMod(base, 0x2_0000, 256);
    SplitMod(base, 0x200_0000, 256);
  }

  // ---- PES ----

  function HasDts(f: Frame): bool
  { f.video && Pts(f) != Dts(f) }

  function PesHeader(f: Frame): (s: seq<byte>)
    ensures |s| == if HasDts(f) then 19 else 14
  {
    var flag := if HasDts(f) then 0xc0 else 0x80;
    var headerSize := if HasDts(f) then 10 else 5;
    var size := |f.data| + headerSize + 3;
    var length := if size > 0xffff then 0 else size;
    [0, 0, 1, if f.video then 0xe0 else 0xc0, length / 256, length % 256, 0x80, flag, headerSize]
    + TimeStamp(flag / 64, Pts(f)) + (if HasDts(f) then TimeStamp(1, Dts(f)) else [])
  }

  function Pes(f: Frame): seq<byte>
  { PesHeader(f) + f.data }

  // ---- packets ----

  function Repeat(b: byte, n: nat): (s: seq<byte>)
    ensures |s| == n && forall i | 0 <= i < n :: s[i] == b
  { seq(n, _ => b) }

  /** An adaptation field of `r` bytes in all, holding only stuffing. */
  function Stuffing(r: nat): (s: seq<byte>)
    requires r <= DATA_LEN
    ensures |s| == r
  { if r == 0 then [] else if r == 1 then [0] else [r - 1, 0] + Repeat(0xff, r - 2) }

  function Clock(f: Frame): (s: seq<byte>)
    ensures |s| == 8
  { [7, 0x50] + Pcr(Dts(f)) }

  function Fixed(f: Frame, cc: nat, first: bool, adaptation: bool): (s: seq<byte>)
    requires cc < 16
    ensures |s| == 4
  { [0x47, if first then 0x41 else 0x01, if f.video then 0 else 1, (if adaptation then 0x30 else 0x10) + cc] }

  predicate Keyed(f: Frame, first: bool)
  { first && f.video && f.key }

  /** How many payload bytes the next packet takes. */
  function Share(f: Frame, first: bool, n: nat): (k: nat)
    ensures 0 < n ==> 0 < k <= n
    ensures k <= n
  { if n >= DATA_LEN then (if Keyed(f, first) then 176 else DATA_LEN) else n }

  /** The bytes between the fixed header and the payload, which fills the rest of the packet. */
  function Between(f: Frame, first: bool, n: nat): (s: seq<byte>)
    requires 0 < n
    ensures |s| == DATA_LEN - Share(f, first, n)
  {
    if n >= DATA_LEN then (if Keyed(f, first) then Clock(f) else [])
    else if !Keyed(f, first) then Stuffing(DATA_LEN - n)
    else if n <= 176 then Clock(f) + Stuffing(176 - n)
    else Clock(f)[..DATA_LEN - n]
  }

  function TsPacket(f: Frame, cc: nat, first: bool, pes: seq<byte>): (p: seq<byte>)
    requires cc < 16 && pes != []
    ensures |p| == PACKET_LEN
  {
    Fixed(f, cc, first, |pes| < DATA_LEN || Keyed(f, first)) + Between(f, first, |pes|) + pes[..Share(f, first, |pes|)]
  }

  function NextCc(cc: nat): (r: nat)
    requires cc < 16
    ensures r < 16
  { (cc + 1) % 16 }

  /** The packets of a PES from some point on; `cc` is the counter of the packet before. */
  function Packets(f: Frame, cc: nat, first: bool, pes: seq<byte>): (ps: seq<seq<byte>>)
    requires cc < 16
    ensures forall i | 0 <= i < |ps| :: |ps[i]| == PACKET_LEN
    decreases |pes|
  {
    if pes == [] then [] else
      [TsPacket(f, NextCc(cc), first, pes)] + Packets(f, NextCc(cc), false, pes[Share(f, first, |pes|)..])
  }

  /** The counter after the packets of a PES. */
  function CcAfter(f: Frame, cc: nat, first: bool, pes: seq<byte>): (r: nat)
    requires cc < 16
    ensures r < 16
    decreases |pes|
  { if pes == [] then cc else CcAfter(f, NextCc(cc), false, pes[Share(f, first, |pes|)..]) }

  // ---- reading packets ----

  function Pid(p: seq<byte>): nat
    requires |p| == PACKET_LEN
  { 256 * (p[1] as int % 32) + p[2] }

  predicate Starts(p: seq<byte>)
    requires |p| == PACKET_LEN
  { p[1] / 64 % 2 == 1 }

  function Counter(p: seq<byte>): nat
    requires |p| == PACKET_LEN
  { p[3] % 16 }

  /** A packet without its header and adaptation field. */
  function Payload(p: seq<byte>): seq<byte>
    requires |p| == PACKET_LEN
  {
    if p[3] / 32 % 2 == 0 then p[4..]
    else if 5 + p[4] <= PACKET_LEN then p[5 + p[4]..]
    else []
  }

  predicate AllPackets(ps: seq<seq<byte>>)
  { forall i | 0 <= i < |ps| :: |ps[i]| == PACKET_LEN }

  function Stripped(ps: seq<seq<byte>>): seq<byte>
    requires AllPackets(ps)
  { if ps == [] then [] else Payload(ps[0]) + Stripped(ps[1..]) }

  /** The caller's guard: key frames whose PES is shorter than a packet do not fit beside the clock. */
  predicate Fits(f: Frame)
  { !(f.video && f.key) || |Pes(f)| >= 184 || |Pes(f)| == 176 }

  lemma PacketHeader(f: Frame, cc: nat, first: bool, pes: seq<byte>)
    requires cc < 16 && pes != []
    ensures
      var p := TsPacket(f, cc, first, pes);
      && p[0] == 0x47 && Pid(p) == (if f.video then 0x100 else 0x101) && Starts(p) == first && Counter(p) == cc
      && p[1] / 128 == 0 && p[1] / 32 % 2 == 0 && p[3] / 64 == 0 && p[3] / 16 % 2 == 1
      && (p[3] / 32 % 2 == 1 <==> |pes| < 184 || (first && f.video && f.key))
  {
    var h := Fixed(f, cc, first, |pes| < DATA_LEN || Keyed(f, first));
    assert TsPacket(f, cc, first, pes)[..4] == h;
  }

  lemma DropPrefix<T>(a: seq<T>, b: seq<T>, c: seq<T>)
    ensures (a + b + c)[|a| + |b|..] == c
  {}

  lemma PacketPayload(f: Frame, cc: nat, first: bool, pes: seq<byte>)
    requires cc < 16 && pes != []
    ensures
      var k := Share(f, first, |pes|);
      Payload(TsPacket(f, cc, first, pes)) == pes[..k]
      <==> !Keyed(f, first) || |pes| >= DATA_LEN || |pes| == 176
    ensures Keyed(f, first) ==> |Payload(TsPacket(f, cc, first, pes))| == 176
  {
    var n := |pes|;
    var k := Share(f, first, n);
    var h, b := Fixed(f, cc, first, n < DATA_LEN || Keyed(f, first)), Between(f, first, n);
    var p := TsPacket(f, cc, first, pes);
    PacketHeader(f, cc, first, pes);
    DropPrefix(h, b, pes[..k]);
    if b != [] { assert p[4] == b[0]; }
  }

  /** The adaptation field: its length, the random access and clock flags before a clock, and stuffing of ones. */
  lemma AdaptationField(f: Frame, cc: nat, first: bool, pes: seq<byte>)
    requires cc < 16 && pes != []
    ensures
      var p := TsPacket(f, cc, first, pes);
      if first && f.video && f.key then |pes| == 176 || |pes| >= 184 ==>
                             p[4] == 7 && p[5] == 0x50 && p[10] % 128 == 0x7e && p[11] == 0
      else |pes| < 184 ==>
             p[4] == 183 - |pes| && (|pes| < 183 ==> p[5] == 0) && forall i | 6 <= i < 188 - |pes| :: p[i] == 0xff
  {
    var n := |pes|;
    var h, b := Fixed(f, cc, first, n < DATA_LEN || Keyed(f, first)), Between(f, first, n);
    var p := TsPacket(f, cc, first, pes);
    assert forall i | 0 <= i < |b| :: p[4 + i] == b[i];
  }

  /** Stripping headers and adaptation fields gives the PES, exactly for the frames that fit. */
  lemma {:induction false} Lossless(f: Frame, cc: nat, pes: seq<byte>)
    requires cc < 16
    ensures Stripped(Packets(f, cc, false, pes)) == pes
    decreases |pes|
  {
    if pes != [] {
      var k := Share(f, false, |pes|);
      PacketPayload(f, NextCc(cc), false, pes);
      Lossless(f, NextCc(cc), pes[k..]);
      var ps := Packets(f, cc, false, pes);
      assert ps[1..] == Packets(f, NextCc(cc), false, pes[k..]);
    }
  }

  lemma LosslessExact(f: Frame, cc: nat)
    requires cc < 16
    ensures Stripped(Packets(f, cc, true, Pes(f))) == Pes(f) <==> Fits(f)
  {
    var pes := Pes(f);
    var k := Share(f, true, |pes|);
    assert Fits(f) <==> !Keyed(f, true) || |pes| >= DATA_LEN || |pes| == 176;
    assert Keyed(f, true) && |pes| < DATA_LEN ==> k == |pes|;
    PacketPayload(f, NextCc(cc), true, pes);
    StrippedFirst(f, cc, pes);
    hide *;
    assert pes == pes[..k] + pes[k..];
    if !Fits(f) { assert |pes[k..]| == 0; }
  }

  /** A receiver gets the payload of the first packet, then the rest of the PES. */
  lemma StrippedFirst(f: Frame, cc: nat, pes: seq<byte>)
    requires cc < 16 && pes != []
    ensures Stripped(Packets(f, cc, true, pes))
         == Payload(TsPacket(f, NextCc(cc), true, pes)) + pes[Share(f, true, |pes|)..]
  {
    var k := Share(f, true, |pes|);
    var ps := Packets(f, cc, true, pes);
    Lossless(f, NextCc(cc), pes[k..]);
    assert ps[0] == TsPacket(f, NextCc(cc), true, pes) && ps[1..] == Packets(f, NextCc(cc), false, pes[k..]);
    hide Packets, TsPacket, Payload, Share;
  }

  /** The clocks a receiver reads from the first packet of a frame, in 90 kHz ticks of its own milliseconds. */
  lemma ClocksExact(f: Frame, cc: nat)
    requires cc < 16
    ensures
      var pts := 90 * (f.ts + if f.video then f.composition else 0);
      ReadTimeStamp(PesHeader(f)[9..14]) == pts % 0x2_0000_0000 <==> pts < 0x2_0000_0000
    ensures |PesHeader(f)| == if f.video && f.composition != 0 then 19 else 14
    ensures f.video && f.composition != 0 ==>
              (ReadTimeStamp(PesHeader(f)[14..19]) == 90 * f.ts % 0x2_0000_0000 <==> 90 * f.ts < 0x2_0000_0000)
    ensures f.video && f.key && Fits(f) ==> ReadPcr(TsPacket(f, cc, true, Pes(f))[6..12]) == 90 * f.ts % 0x2_0000_0000
  {
    assert PesHeader(f)[9..14] == TimeStamp(if HasDts(f) then 3 else 2, Pts(f));
    TimeStampExact(if HasDts(f) then 3 else 2, Pts(f));
    if HasDts(f) {
      assert PesHeader(f)[14..19] == TimeStamp(1, Dts(f));
      TimeStampExact(1, Dts(f));
    }
    if f.video && f.key && Fits(f) {
      assert TsPacket(f, cc, true, Pes(f))[6..12] == Pcr(Dts(f));
      PcrExact(Dts(f));
    }
  }

  /**
   What a receiver reads from a PES header: the start code, the stream, the number of bytes that
   follow the length field (zero if it is too large), which clocks there are and how long they are.
   */
  lemma PesFields(f: Frame)
    ensures
      var h := PesHeader(f);
      && h[..3] == [0, 0, 1] && h[3] == (if f.video then 0xe0 else 0xc0)
      && h[4] as int * 256 + h[5] == (if |Pes(f)| - 6 > 0xffff then 0 else |Pes(f)| - 6)
      && h[6] == 0x80 && h[7] == (if f.video && f.composition != 0 then 0xc0 else 0x80) && h[8] == |h| - 9
      && h[9] / 16 == h[7] / 64 && (f.video && f.composition != 0 ==> h[14] / 16 == 1)
      && h[9] % 2 == 1 && h[11] % 2 == 1 && h[13] % 2 == 1
  {
    var h := PesHeader(f);
    var flag := if HasDts(f) then 3 else 2;
    assert HasDts(f) <==> f.video && f.composition != 0;
    var t := h[9..14];
    assert t == TimeStamp(flag, Pts(f)) && h[9] == t[0] && h[11] == t[2] && h[13] == t[4];
    Nibble(flag, Pts(f));
    if HasDts(f) {
      assert h[14..19] == TimeStamp(1, Dts(f)) && h[14] == h[14..19][0];
      Nibble(1, Dts(f));
    }
  }

  lemma OddByte(x: nat)
    ensures (x * 2 + 1) % 256 % 2 == 1
  {}

  lemma Nibble(fb: nat, ts: nat)
    requires fb <= 3
    ensures TimeStamp(fb, ts)[0] / 16 == fb && forall i | i in {0, 2, 4} :: TimeStamp(fb, ts)[i] % 2 == 1
  {
    var t := if ts > 0x1_ffff_ffff then ts - 0x1_ffff_ffff else ts;
    var high := t / 0x4000_0000 % 8;
    OddByte(t / 0x8000 % 0x8000);
    OddByte(t % 0x8000);
    assert high < 8 && TimeStamp(fb, ts)[0] == fb * 16 + high * 2 + 1;
  }

  // ---- counters over runs ----

  datatype Counters = Counters(video: nat, audio: nat)

  predicate ValidCounters(c: Counters)
  { c.video < 16 && c.audio < 16 }

  function MuxPackets(c: Counters, f: Frame): (ps: seq<seq<byte>>)
    requires ValidCounters(c)
    ensures AllPackets(ps)
  { Packets(f, if f.video then c.video else c.audio, true, Pes(f)) }

  function MuxCounters(c: Counters, f: Frame): (c': Counters)
    requires ValidCounters(c)
    ensures ValidCounters(c')
  {
    if f.video then c.(video := CcAfter(f, c.video, true, Pes(f))) else c.(audio := CcAfter(f, c.audio, true, Pes(f)))
  }

  function RunPackets(c: Counters, fs: seq<Frame>): (ps: seq<seq<byte>>)
    requires ValidCounters(c)
    ensures AllPackets(ps)
    decreases |fs|
  { if fs == [] then [] else MuxPackets(c, fs[0]) + RunPackets(MuxCounters(c, fs[0]), fs[1..]) }

  /** Each packet carries the successor of the counter of the packet before it on the same PID. */
  predicate Continuous(c: Counters, ps: seq<seq<byte>>)
    requires ValidCounters(c) && AllPackets(ps)
    decreases |ps|
  {
    ps == [] ||
    (Pid(ps[0]) in {0x100, 0x101} &&
     var video := Pid(ps[0]) == 0x100;
     var next := ((if video then c.video else c.audio) + 1) % 16;
     Counter(ps[0]) == next && Continuous(if video then c.(video := next) else c.(audio := next), ps[1..]))
  }

  lemma {:induction false} PacketsContinue(c: Counters, f: Frame, first: bool, pes: seq<byte>, rest: seq<seq<byte>>)
    requires ValidCounters(c) && AllPackets(rest)
    requires
      var cc := CcAfter(f, if f.video then c.video else c.audio, first, pes);
      Continuous(if f.video then c.(video := cc) else c.(audio := cc), rest)
    ensures Continuous(c, Packets(f, if f.video then c.video else c.audio, first, pes) + rest)
    decreases |pes|
  {
    var cc := if f.video then c.video else c.audio;
    if pes == [] {
      EmptyUnit(rest);
    } else {
      var k := Share(f, first, |pes|);
      var c' := if f.video then c.(video := NextCc(cc)) else c.(audio := NextCc(cc));
      PacketHeader(f, NextCc(cc), first, pes);
      PacketsContinue(c', f, false, pes[k..], rest);
      var p, ps := TsPacket(f, NextCc(cc), first, pes), Packets(f, NextCc(cc), false, pes[k..]);
      assert Packets(f, cc, first, pes) == [p] + ps && NextCc(cc) == (cc + 1) % 16;
      hide *;
      Assoc([p], ps, rest);
      ContinuousCons(c, f.video, p, ps + rest);
    }
  }

  lemma ContinuousCons(c: Counters, video: bool, p: seq<byte>, ps: seq<seq<byte>>)
    requires ValidCounters(c) && |p| == PACKET_LEN && AllPackets(ps) && Pid(p) == if video then 0x100 else 0x101
    requires Counter(p) == ((if video then c.video else c.audio) + 1) % 16
    requires Continuous(if video then c.(video := Counter(p)) else c.(audio := Counter(p)), ps)
    ensures AllPackets([p] + ps) && Continuous(c, [p] + ps)
  {
    TailOfAppend([p], ps);
    hide Pid, Counter;
  }

  lemma {:induction false} RunContinuous(c: Counters, fs: seq<Frame>)
    requires ValidCounters(c)
    ensures Continuous(c, RunPackets(c, fs))
    decreases |fs|
  {
    if fs != [] {
      RunContinuous(MuxCounters(c, fs[0]), fs[1..]);
      PacketsContinue(c, fs[0], true, Pes(fs[0]), RunPackets(MuxCounters(c, fs[0]), fs[1..]));
    }
  }

  /** Only the first packet of a frame carries the unit start indicator. */
  lemma {:induction false} StartsOnlyFirst(f: Frame, cc: nat, first: bool, pes: seq<byte>)
    requires cc < 16
    ensures forall i | 0 <= i < |Packets(f, cc, first, pes)| ::
              Starts(Packets(f, cc, first, pes)[i]) <==> first && i == 0
    decreases |pes|
  {
    if pes != [] {
      PacketHeader(f, NextCc(cc), first, pes);
      StartsOnlyFirst(f, NextCc(cc), false, pes[Share(f, first, |pes|)..]);
    }
  }
}
