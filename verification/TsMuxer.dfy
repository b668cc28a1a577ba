/** The in-place packet assembly of `container/ts/muxer.go`. */
module TsMuxer {
  import opened Bytes
  import opened Ts
  import opened Crc
  import opened Psi

  /** A growing byte buffer, as `bytes.Buffer` is used by the segmenter. */
  class Buffer {
    var bytes: seq<byte>

    constructor ()
      ensures bytes == []
    { bytes := []; }

    method Write(p: seq<byte>)
      modifies this
      ensures bytes == old(bytes) + p
    { bytes := bytes + p; }

    method Reset()
      modifies this
      ensures bytes == []
    { bytes := []; }
  }

  class PesBuilder {
    var len: nat
    var data: array<byte>

    constructor ()
      ensures fresh(data) && data.Length == PACKET_LEN && len == 0
    {
      data, len := new byte[PACKET_LEN], 0;
    }

    ghost function Written(): (w: seq<byte>)
      requires len <= data.Length
      reads `len, `data, data
      ensures |w| == len
    { data[..len] }

    method Put(b: byte)
      requires len < data.Length
      modifies this`len, data
      ensures len == old(len) + 1 && Written() == old(Written()) + [b]
    {
      data[len] := b;
      len := len + 1;
    }

    /** The top three bits of a time stamp behind the code, and fifteen more bits, with their marker bits. */
    static function TopBits(fb: nat, t: nat): byte
      requires fb <= 3
    { fb * 16 + t / 0x4000_0000 % 8 * 2 + 1 }

    static function Marked(v: nat): (m: nat)
      ensures m < 0x1_0000
    { v % 0x8000 * 2 + 1 }

    static lemma StampBytes(fb: nat, ts: nat, t: nat)
      requires fb <= 3 && t == if ts > 0x1_ffff_ffff then ts - 0x1_ffff_ffff else ts
      ensures
        var mid, low := Marked(t / 0x8000), Marked(t);
        TimeStamp(fb, ts) == [TopBits(fb, t)] + [mid / 256] + [mid % 256] + [low / 256] + [low % 256]
    {}

    method WriteTs(fb: nat, ts: nat)
      requires fb <= 3 && len + 5 <= data.Length
      modifies this`len, data
      ensures len == old(len) + 5 && Written() == old(Written()) + TimeStamp(fb, ts)
    {
      var t := ts;
      if t > 0x1_ffff_ffff { t := t - 0x1_ffff_ffff; }
      StampBytes(fb, ts, t);
      ghost var mid, low := Marked(t / 0x8000), Marked(t);
      hide TimeStamp, Written, TopBits, Marked;
      FiveBytes(Written(), TopBits(fb, t), mid / 256, mid % 256, low / 256, low % 256);
      Put(TopBits(fb, t));
      var val := Marked(t / 0x8000);
      Put(val / 256);
      Put(val % 256);
      val := Marked(t);
      Put(val / 256);
      Put(val % 256);
    }

    static lemma FiveBytes<T>(s: seq<T>, a: T, b: T, c: T, d: T, e: T)
      ensures s + [a] + [b] + [c] + [d] + [e] == s + ([a] + [b] + [c] + [d] + [e])
    {}

    /** The start code, stream id, length and flags. */
    /** The builder holds the PES header of `f`. */
    ghost predicate Carries(f: Frame)
      reads `len, `data, data
    { data.Length == PACKET_LEN && len == |PesHeader(f)| && data[..len] == PesHeader(f) }

    method PutFixed(f: Frame, flag: nat, headerSize: nat)
      requires data.Length == PACKET_LEN && flag < 256 && headerSize < 256
      modifies this`len, data
      ensures var size := if |f.data| + headerSize + 3 > 0xffff then 0 else |f.data| + headerSize + 3;
              var id: byte := if f.video then 0xe0 else 0xc0;
              len == 9 && data[..9] == [0, 0, 1, id, size / 256, size % 256, 0x80, flag, headerSize]
    {
      data[0], data[1], data[2] := 0, 0, 1;
      data[3] := if f.video then 0xe0 else 0xc0;
      var size := |f.data| + headerSize + 3;
      if size > 0xffff { size := 0; }
      data[4] := size / 256;
      data[5] := size % 256;
      data[6] := 0x80;
      data[7] := flag;
      data[8] := headerSize;
      len := 9;
    }

    method Packet(f: Frame, pts: nat, dts: nat)
      requires data.Length == PACKET_LEN && pts == Pts(f) && dts == Dts(f)
      modifies this`len, data
      ensures len == |PesHeader(f)| && data[..len] == PesHeader(f)
    {
      var flag, headerSize := 0x80, 5;
      if f.video && pts != dts {
        flag, headerSize := 0xc0, 10;
      }
      PutFixed(f, flag, headerSize);
      WriteTs(flag / 64, pts);
      if f.video && pts != dts {
        WriteTs(1, dts);
      }
    }
  }

  class Muxer {
    var videoCc: byte
    var audioCc: byte
    var patCc: byte
    var pmtCc: byte
    const pat: array<byte>
    const pmt: array<byte>
    const tsPacket: array<byte>

    ghost predicate Valid()
      reads this
    {
      && tsPacket.Length == pat.Length == pmt.Length == PACKET_LEN
      && tsPacket != pat && tsPacket != pmt && pat != pmt
      && videoCc < 16 && audioCc < 16 && patCc <= 16 && pmtCc <= 16
    }

    ghost function Tally(): Counters
      reads this
    { Counters(videoCc, audioCc) }

    constructor ()
      ensures Valid() && fresh(tsPacket) && fresh(pat) && fresh(pmt) && Tally() == Counters(0, 0)
      ensures patCc == pmtCc == 0
    {
      videoCc, audioCc, patCc, pmtCc := 0, 0, 0, 0;
      tsPacket, pat, pmt := new byte[PACKET_LEN], new byte[PACKET_LEN], new byte[PACKET_LEN];
    }

    static method Put(a: array<byte>, i: nat, p: seq<byte>)
      requires i + |p| <= a.Length
      modifies a
      ensures a[..i + |p|] == old(a[..i]) + p
    {
      for j := 0 to |p|
        invariant a[..i] == old(a[..i]) && a[i..i + j] == p[..j]
      {
        a[i + j] := p[j];
      }
      assert a[..i + |p|] == a[..i] + a[i..i + |p|];
    }

    /** Header, section, checksum, and 0xff up to the end of the packet. */
    static method FillTable(a: array<byte>, b1: byte, b2: byte, cc: byte, section: seq<byte>)
      requires a.Length == PACKET_LEN && cc < 16 && |section| + 9 <= PACKET_LEN
      modifies a
      ensures a[..] == PsiPacket(b1, b2, cc, section)
    {
      Put(a, 0, [0x47, b1, b2, 0x10 + cc, 0]);
      Put(a, 5, section);
      var crc := GenCrc32(section);
      Put(a, 5 + |section|, CrcBytes(crc));
      Put(a, 9 + |section|, Repeat(0xff, PACKET_LEN - 9 - |section|));
      assert a[..] == a[..PACKET_LEN];
    }

    static function Reset(cc: nat): nat
    { if cc > 15 then 0 else cc }

    /** A table under a counter carries it, and the next one carries its successor. */
    static lemma TableCounters(cc: nat, soundFormat: nat, hasVideo: bool)
      requires cc <= 16
      ensures Reset(Reset(cc) + 1) == NextCc(Reset(cc))
      ensures Counter(PatPacket(Reset(cc))) == Reset(cc)
      ensures Counter(PmtPacket(Reset(cc), soundFormat, hasVideo)) == Reset(cc)
    {
      hide PsiPacket, Counter;
      PsiCounter(0x40, 0x00, Reset(cc), PAT_SECTION);
      PsiCounter(0x50, 0x01, Reset(cc), PmtSection(soundFormat, hasVideo));
    }

    static lemma PsiCounter(b1: byte, b2: byte, cc: nat, section: seq<byte>)
      requires cc < 16 && |section| <= PACKET_LEN - 9
      ensures Counter(PsiPacket(b1, b2, cc, section)) == cc
    { hide CrcBytes, BitCrc, Repeat; }

    method PAT() returns (p: seq<byte>)
      requires Valid()
      modifies this`patCc, pat
      ensures Valid() && patCc == Reset(old(patCc)) + 1 && p == PatPacket(Reset(old(patCc)))
    {
      if patCc > 0xf { patCc := 0; }
      var cc := patCc;
      patCc := patCc + 1;
      FillTable(pat, 0x40, 0x00, cc, PAT_SECTION);
      p := pat[..];
    }

    method PMT(soundFormat: nat, hasVideo: bool) returns (p: seq<byte>)
      requires Valid()
      modifies this`pmtCc, pmt
      ensures Valid() && pmtCc == Reset(old(pmtCc)) + 1 && p == PmtPacket(Reset(old(pmtCc)), soundFormat, hasVideo)
    {
      if pmtCc > 0xf { pmtCc := 0; }
      var cc := pmtCc;
      pmtCc := pmtCc + 1;
      FillTable(pmt, 0x50, 0x01, cc, PmtSection(soundFormat, hasVideo));
      p := pmt[..];
    }

    method Count(video: bool) returns (cc: byte)
      requires Valid()
      modifies this`videoCc, this`audioCc
      ensures Valid() && cc == NextCc(if video then old(videoCc) else old(audioCc))
      ensures Tally() == if video then old(Tally()).(video := cc) else old(Tally()).(audio := cc)
    {
      if video {
        videoCc := videoCc + 1;
        if videoCc > 0xf { videoCc := 0; }
        cc := videoCc;
      } else {
        audioCc := audioCc + 1;
        if audioCc > 0xf { audioCc := 0; }
        cc := audioCc;
      }
    }

    /** Fills `tsPacket[from..]` with an adaptation field of `remain` bytes and 0xff to the end. */
    method AdaptationBufInit(from: nat, remain: byte)
      requires Valid() && 4 <= from && from + 2 <= PACKET_LEN
      modifies tsPacket
      ensures tsPacket[..from] == old(tsPacket[..from])
      ensures 0 < remain && from + remain <= PACKET_LEN ==> tsPacket[from..from + remain] == Stuffing(remain)
    {
      tsPacket[from] := (remain + 255) % 256;
      if remain != 1 {
        tsPacket[from + 1] := 0;
        for i := from + 2 to PACKET_LEN
          invariant tsPacket[..from] == old(tsPacket[..from])
          invariant tsPacket[from] == (remain + 255) % 256 && tsPacket[from + 1] == 0
          invariant forall j | from + 2 <= j < i :: tsPacket[j] == 0xff
        {
          tsPacket[i] := 0xff;
        }
      }
      if 0 < remain && from + remain <= PACKET_LEN {
        assert (remain + 255) % 256 == remain - 1;
        StuffingBytes(remain, tsPacket[from..from + remain]);
      }
    }

    static lemma StuffingBytes(r: nat, s: seq<byte>)
      requires 0 < r <= DATA_LEN && |s| == r && s[0] == r - 1 && (r > 1 ==> s[1] == 0)
      requires forall j | 2 <= j < r :: s[j] == 0xff
      ensures s == Stuffing(r)
    {}

    method WritePcr(i: nat, pcr: nat)
      requires Valid() && i + 6 <= PACKET_LEN
      modifies tsPacket
      ensures tsPacket[..i + 6] == old(tsPacket[..i]) + Pcr(pcr)
    {
      tsPacket[i] := pcr / 0x200_0000 % 256;
      tsPacket[i + 1] := pcr / 0x2_0000 % 256;
      tsPacket[i + 2] := pcr / 512 % 256;
      tsPacket[i + 3] := pcr / 2 % 256;
      tsPacket[i + 4] := pcr % 2 * 128 + 0x7e;
      tsPacket[i + 5] := 0;
    }

    /** The fixed header and, on the first packet of a key frame, the clock; `i` is the next free byte. */
    method WriteHeader(f: Frame, cc: byte, first: bool) returns (i: nat)
      requires Valid() && cc < 16
      modifies tsPacket
      ensures i == if Keyed(f, first) then 12 else 4
      ensures tsPacket[..i] == Fixed(f, cc, first, Keyed(f, first)) + if Keyed(f, first) then Clock(f) else []
    {
      tsPacket[0] := 0x47;
      tsPacket[1] := 1;
      if first { tsPacket[1] := tsPacket[1] + 0x40; }
      tsPacket[2] := if f.video then 0 else 1;
      tsPacket[3] := 0x10 + cc;
      i := 4;
      assert tsPacket[..4] == Fixed(f, cc, first, false);
      if first && f.video && f.key {
        tsPacket[3] := SetBit(tsPacket[3], 0x20);
        tsPacket[4] := 7;
        tsPacket[5] := 0x50;
        WritePcr(6, Dts(f));
        i := 12;
      }
    }

    static function SetBit(b: byte, bit: byte): (r: int)
      requires bit > 0
    { if b / bit % 2 == 1 then b else b as int + bit }

    /** `copy(tsPacket[i:], p)` for a source that fits. */
    method Copy(i: nat, p: seq<byte>)
      requires Valid() && i + |p| <= PACKET_LEN
      modifies tsPacket
      ensures tsPacket[..i + |p|] == old(tsPacket[..i]) + p
      ensures tsPacket[i + |p|..] == old(tsPacket[i + |p|..])
    {
      for j := 0 to |p|
        invariant tsPacket[..i] == old(tsPacket[..i]) && tsPacket[i..i + j] == p[..j]
        invariant tsPacket[i + |p|..] == old(tsPacket[i + |p|..])
      {
        tsPacket[i + j] := p[j];
      }
    }

    /** What stands before the stuffing. */
    static function Head(f: Frame, cc: byte, first: bool): (h: seq<byte>)
      requires cc < 16
      ensures |h| == if Keyed(f, first) then 12 else 4
    { Fixed(f, cc, first, true) + if Keyed(f, first) then Clock(f) else [] }

    method SetAdaptation(f: Frame, cc: byte, first: bool, i0: nat)
      requires Valid() && cc < 16 && i0 == (if Keyed(f, first) then 12 else 4)
      requires tsPacket[..i0] == Fixed(f, cc, first, Keyed(f, first)) + if Keyed(f, first) then Clock(f) else []
      modifies tsPacket
      ensures tsPacket[..i0] == Head(f, cc, first)
    {
      hide Clock, Repeat;
      assert tsPacket[3] == tsPacket[..i0][3] == Fixed(f, cc, first, Keyed(f, first))[3];
      tsPacket[3] := SetBit(tsPacket[3], 0x20);
      assert tsPacket[..i0] == Head(f, cc, first);
    }

    /** The stuffing of `remain` bytes, in byte arithmetic. */
    static function Remain(f: Frame, first: bool, n: nat): byte
      requires 0 < n < DATA_LEN
    { (DATA_LEN - n - if Keyed(f, first) then 8 else 0) % 256 }

    static lemma PadClipped(f: Frame, cc: byte, first: bool, n: nat)
      requires cc < 16 && Keyed(f, first) && 176 < n < DATA_LEN
      ensures (12 + Remain(f, first, n)) % 256 == PACKET_LEN - n < 12
      ensures Head(f, cc, first)[..PACKET_LEN - n] == Fixed(f, cc, first, true) + Between(f, first, n)
    { hide Fixed, Clock; }

    static lemma PadStuffed(f: Frame, cc: byte, first: bool, n: nat)
      requires cc < 16 && 0 < n < DATA_LEN && (Keyed(f, first) ==> n <= 176)
      ensures
        var r := Remain(f, first, n);
        && |Head(f, cc, first)| + r == PACKET_LEN - n && r <= DATA_LEN
        && Head(f, cc, first) + Stuffing(r) == Fixed(f, cc, first, true) + Between(f, first, n)
    {
      hide Fixed, Clock, Stuffing;
      EmptyUnit(Fixed(f, cc, first, true));
      if Keyed(f, first) { Assoc(Fixed(f, cc, first, true), Clock(f), Stuffing(176 - n)); }
    }

    /** The bytes before the payload of a short packet: stuffing, behind the clock of a key frame. */
    method Pad(f: Frame, cc: byte, first: bool, i0: nat, n: nat) returns (i: nat)
      requires Valid() && cc < 16 && 0 < n < DATA_LEN && i0 == (if Keyed(f, first) then 12 else 4)
      requires tsPacket[..i0] == Fixed(f, cc, first, Keyed(f, first)) + if Keyed(f, first) then Clock(f) else []
      modifies tsPacket
      ensures i == PACKET_LEN - n
      ensures tsPacket[..i] == Fixed(f, cc, first, true) + Between(f, first, n)
    {
      SetAdaptation(f, cc, first, i0);
      var remain: byte := (DATA_LEN - n - if first then i0 - 4 else 0) % 256;
      assert remain == Remain(f, first, n);
      hide Fixed, Clock, Between, Stuffing, Head, Remain, Repeat;
      AdaptationBufInit(i0, remain);
      i := (i0 + remain) % 256;
      Padded(f, cc, first, i0, n, tsPacket[..]);
    }

    /** What the stuffing leaves in front of the payload; a key frame of more than 176 bytes clips the clock. */
    static lemma Padded(f: Frame, cc: byte, first: bool, i0: nat, n: nat, t: seq<byte>)
      requires cc < 16 && 0 < n < DATA_LEN && i0 == (if Keyed(f, first) then 12 else 4)
      requires |t| == PACKET_LEN && t[..i0] == Head(f, cc, first)
      requires var r := Remain(f, first, n); 0 < r && i0 + r <= PACKET_LEN ==> t[i0..i0 + r] == Stuffing(r)
      ensures var i := (i0 + Remain(f, first, n)) % 256;
              i == PACKET_LEN - n && t[..i] == Fixed(f, cc, first, true) + Between(f, first, n)
    {
      hide Fixed, Between, Stuffing, Head, Remain;
      if Keyed(f, first) && n > 176 {
        PadClipped(f, cc, first, n);
        TakeTake(t, i0, PACKET_LEN - n);
      } else {
        PadStuffed(f, cc, first, n);
        Stuffed(Remain(f, first, n));
        TakeSplit(t, i0, PACKET_LEN - n);
      }
    }

    static lemma TakeTake<T>(s: seq<T>, i: nat, j: nat)
      requires j <= i <= |s|
      ensures s[..i][..j] == s[..j]
    {}

    static lemma TakeSplit<T>(s: seq<T>, i: nat, j: nat)
      requires i <= j <= |s|
      ensures s[..j] == s[..i] + s[i..j]
      ensures i == j ==> s[i..j] == []
    {}

    static lemma Stuffed(r: byte)
      ensures r == 0 ==> Stuffing(0) == []
    {}

    /** Everything before the payload; returns where the payload begins and how much of it fits. */
    method FillHead(f: Frame, cc: byte, first: bool, n: nat) returns (i: nat, dataLen: nat)
      requires Valid() && cc < 16 && 0 < n
      modifies tsPacket
      ensures dataLen == Share(f, first, n) == PACKET_LEN - i
      ensures tsPacket[..i] == Fixed(f, cc, first, n < DATA_LEN || Keyed(f, first)) + Between(f, first, n)
    {
      hide Fixed, Clock, Stuffing;
      i := WriteHeader(f, cc, first);
      dataLen := n;
      if n >= DATA_LEN {
        dataLen := DATA_LEN;
        if first { dataLen := dataLen - (i - 4); }
      } else {
        i := Pad(f, cc, first, i, n);
      }
    }

    /** The payload: the PES header on the first packet, then frame data up to the end of the packet. */
    method FillBody(f: Frame, pes: PesBuilder, first: bool, i0: nat, room: nat, wBytes: nat) returns (w: nat)
      requires Valid() && pes.data != tsPacket && pes.Carries(f)
      requires room == PACKET_LEN - i0 && wBytes <= |f.data|
      requires if first then wBytes == 0 && |PesHeader(f)| <= room <= |PesHeader(f)| + |f.data|
               else room <= |f.data| - wBytes
      modifies tsPacket
      ensures w == wBytes + room - (if first then |PesHeader(f)| else 0) && w <= |f.data|
      ensures tsPacket[..] == old(tsPacket[..i0]) + (if first then PesHeader(f) else []) + f.data[wBytes..w]
    {
      hide PesHeader;
      var i, dataLen := i0, room;
      EmptyUnit(tsPacket[..i0]);
      if first && i < PACKET_LEN {
        var tmpLen := PACKET_LEN - i;
        if pes.len <= tmpLen { tmpLen := pes.len; }
        Copy(i, pes.data[..tmpLen]);
        i, dataLen := i + tmpLen, dataLen - tmpLen;
      }
      w := wBytes;
      EmptyUnit(tsPacket[..i]);
      if i < PACKET_LEN {
        var tmpLen := PACKET_LEN - i;
        if tmpLen <= dataLen { dataLen := tmpLen; }
        Copy(i, f.data[w..w + dataLen]);
        w := w + dataLen;
      }
      TakeAll(tsPacket[..]);
    }

    /** One packet, of which every byte is written; returns how far the payload has got. */
    method FillPacket(f: Frame, pes: PesBuilder, cc: byte, first: bool, n: nat, wBytes: nat) returns (left: nat, w: nat)
      requires Valid() && cc < 16 && pes.data != tsPacket && wBytes <= |f.data| && 0 < n
      requires pes.Carries(f)
      requires first ==> wBytes == 0
      requires n == |Rest(f, first, wBytes)|
      modifies tsPacket
      ensures tsPacket[..] == TsPacket(f, cc, first, Rest(f, first, wBytes))
      ensures w <= |f.data| && left == |Rest(f, false, w)|
      ensures Rest(f, false, w) == Rest(f, first, wBytes)[Share(f, first, n)..]
    {
      var i, dataLen := FillHead(f, cc, first, n);
      ghost var head := tsPacket[..i];
      hide Fixed, Between, Keyed;
      w := FillBody(f, pes, first, i, dataLen, wBytes);
      left := n - dataLen;
      hide PesHeader;
      Taken(f, first, wBytes, w, n);
      if first { Assoc(head, PesHeader(f), f.data[wBytes..w]); } else { EmptyUnit(head); }
    }

    /** What is still to be packed: everything, or the frame data from `w` on. */
    static function Rest(f: Frame, first: bool, w: nat): seq<byte>
      requires w <= |f.data|
    { if first then Pes(f) else f.data[w..] }

    static lemma Taken(f: Frame, first: bool, wBytes: nat, w: nat, n: nat)
      requires wBytes <= w <= |f.data| && (first ==> wBytes == 0) && n == |Rest(f, first, wBytes)|
      requires w - wBytes + (if first then |PesHeader(f)| else 0) == Share(f, first, n)
      ensures Rest(f, first, wBytes)[..Share(f, first, n)] == (if first then PesHeader(f) else []) + f.data[wBytes..w]
      ensures Rest(f, first, wBytes)[Share(f, first, n)..] == f.data[w..]
    {}

    static function CcOf(c: Counters, f: Frame): nat
    { if f.video then c.video else c.audio }

    static function WithCc(c: Counters, f: Frame, cc: nat): Counters
    { if f.video then c.(video := cc) else c.(audio := cc) }

    /** The packets `ps` written so far and those of `rest` are all the packets of `f`. */
    static ghost predicate Progress(c0: Counters, c: Counters, f: Frame, ps: seq<seq<byte>>, first: bool,
          rest: seq<byte>)
      requires ValidCounters(c0) && ValidCounters(c)
    {
      && MuxPackets(c0, f) == ps + Packets(f, CcOf(c, f), first, rest)
      && MuxCounters(c0, f) == WithCc(c, f, CcAfter(f, CcOf(c, f), first, rest))
    }

    static lemma ProgressStep(c0: Counters, c: Counters, f: Frame, ps: seq<seq<byte>>, first: bool, rest: seq<byte>)
      requires ValidCounters(c0) && ValidCounters(c) && Progress(c0, c, f, ps, first, rest) && rest != []
      ensures
        var cc := NextCc(CcOf(c, f));
        var p := TsPacket(f, cc, first, rest);
        && Progress(c0, WithCc(c, f, cc), f, ps + [p], false, rest[Share(f, first, |rest|)..])
        && Flatten(ps + [p]) == Flatten(ps) + p
    {
      var cc := NextCc(CcOf(c, f));
      var p := TsPacket(f, cc, first, rest);
      Assoc(ps, [p], Packets(f, cc, false, rest[Share(f, first, |rest|)..]));
      FlattenAppend(ps, [p]);
      assert Flatten([p]) == p by { EmptyUnit(p); }
    }

    static lemma ProgressDone(c0: Counters, c: Counters, f: Frame, ps: seq<seq<byte>>, first: bool)
      requires ValidCounters(c0) && ValidCounters(c) && Progress(c0, c, f, ps, first, [])
      ensures ps == MuxPackets(c0, f) && c == MuxCounters(c0, f)
    { EmptyUnit(ps); }

    /** The next packet goes to the writer under the next counter. */
    method WriteOne(f: Frame, pes: PesBuilder, first: bool, n: nat, wBytes: nat, out: Buffer?)
      returns (left: nat, w: nat)
      requires Valid() && pes.data != tsPacket && wBytes <= |f.data| && 0 < n
      requires pes.Carries(f)
      requires first ==> wBytes == 0
      requires n == |Rest(f, first, wBytes)|
      modifies this`videoCc, this`audioCc, tsPacket, out
      ensures Valid() && w <= |f.data| && left == |Rest(f, false, w)|
      ensures Rest(f, false, w) == Rest(f, first, wBytes)[Share(f, first, n)..]
      ensures
        var cc := NextCc(CcOf(old(Tally()), f));
        && Tally() == WithCc(old(Tally()), f, cc)
        && (out != null ==> out.bytes == old(out.bytes) + TsPacket(f, cc, first, Rest(f, first, wBytes)))
    {
      hide TsPacket, Share, Rest, PesBuilder.Carries;
      var cc := Count(f.video);
      left, w := FillPacket(f, pes, cc, first, n, wBytes);
      if out != null { out.Write(tsPacket[..]); }
    }

    /** Packs one frame; with no writer the packets are only counted. */
    method Mux(f: Frame, out: Buffer?)
      requires Valid()
      modifies this`videoCc, this`audioCc, tsPacket, out
      ensures Valid() && Tally() == MuxCounters(old(Tally()), f)
      ensures out != null ==> out.bytes == old(out.bytes) + Flatten(MuxPackets(old(Tally()), f))
    {
      var first, wBytes: nat := true, 0;
      var pes := new PesBuilder();
      pes.Packet(f, Pts(f), Dts(f));
      var left := |f.data| + pes.len;
      ghost var c0, ps: seq<seq<byte>> := Tally(), [];
      assert Progress(c0, Tally(), f, ps, first, Rest(f, first, wBytes)) by { EmptyUnit(MuxPackets(c0, f)); }
      hide Progress, TsPacket, Share, MuxPackets, MuxCounters, Rest, PesHeader, Flatten, PesBuilder.Carries;
      while left > 0
        invariant Valid() && wBytes <= |f.data| && (first ==> wBytes == 0) && left == |Rest(f, first, wBytes)|
        invariant fresh(pes.data) && pes.Carries(f)
        invariant Progress(c0, Tally(), f, ps, first, Rest(f, first, wBytes))
        invariant out != null ==> out.bytes == old(out.bytes) + Flatten(ps)
        decreases left
      {
        ghost var rest, cc := Rest(f, first, wBytes), NextCc(CcOf(Tally(), f));
        ProgressStep(c0, Tally(), f, ps, first, rest);
        if out != null { Assoc(old(out.bytes), Flatten(ps), TsPacket(f, cc, first, rest)); }
        left, wBytes := WriteOne(f, pes, first, left, wBytes, out);
        ps := ps + [TsPacket(f, cc, first, rest)];
        first := false;
      }
      ProgressDone(c0, Tally(), f, ps, first);
    }
  }
}
