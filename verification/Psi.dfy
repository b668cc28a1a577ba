/** The program association and program map packets (ISO/IEC 13818-1, section 2.4.4). */
module Psi {
  import opened Bytes
  import opened Ts
  import opened Crc

  /** A section with its checksum, behind a packet header and a zero pointer field. */
  function PsiPacket(b1: byte, b2: byte, cc: nat, section: seq<byte>): (p: seq<byte>)
    requires cc < 16 && |section| + 9 <= PACKET_LEN
    ensures |p| == PACKET_LEN
  {
    [0x47, b1, b2, 0x10 + cc, 0] + section + CrcBytes(BitCrc(START, section)) + Repeat(0xff, PACKET_LEN - 9 - |section|)
  }

  const PAT_SECTION: seq<byte> := [0x00, 0xb0, 0x0d, 0x00, 0x01, 0xc1, 0x00, 0x00, 0x00, 0x01, 0xf0, 0x01]

  function PatPacket(cc: nat): (p: seq<byte>)
    requires cc < 16
    ensures |p| == PACKET_LEN
  { PsiPacket(0x40, 0x00, cc, PAT_SECTION) }

  /** The elementary streams: type 4 instead of 15 for the two MP3 sound formats. */
  function ProgramInfo(soundFormat: nat, hasVideo: bool): (s: seq<byte>)
    ensures |s| == if hasVideo then 10 else 5
  {
    var audio := if soundFormat == 2 || soundFormat == 14 then 4 else 0x0f;
    (if hasVideo then [0x1b, 0xe1, 0x00, 0xf0, 0x00] else []) + [audio, 0xe1, 0x01, 0xf0, 0x00]
  }

  function PmtSection(soundFormat: nat, hasVideo: bool): (s: seq<byte>)
    ensures |s| == if hasVideo then 22 else 17
  {
    var info := ProgramInfo(soundFormat, hasVideo);
    [0x02, 0xb0, |info| + 13, 0x00, 0x01, 0xc1, 0x00, 0x00, 0xe1, if hasVideo then 0 else 1, 0xf0, 0x00] + info
  }

  function PmtPacket(cc: nat, soundFormat: nat, hasVideo: bool): (p: seq<byte>)
    requires cc < 16
    ensures |p| == PACKET_LEN
  { PsiPacket(0x50, 0x01, cc, PmtSection(soundFormat, hasVideo)) }

  /** The section a receiver finds in a packet: its length field counts from behind itself. */
  function SectionOf(p: seq<byte>): (s: seq<byte>)
    requires |p| == PACKET_LEN
  {
    var length := 256 * (p[6] as int % 16) + p[7];
    if 8 + length <= PACKET_LEN then p[5..8 + length] else []
  }

  lemma Middle<T>(h: seq<T>, a: seq<T>, b: seq<T>, t: seq<T>)
    ensures (h + a + b + t)[|h|..|h| + |a| + |b|] == a + b
    ensures forall i | 0 <= i < |h| :: (h + a + b + t)[i] == h[i]
    ensures forall i | 0 <= i < |a| :: (h + a + b + t)[|h| + i] == a[i]
  {}

  lemma PsiSection(b1: byte, b2: byte, cc: nat, section: seq<byte>)
    requires cc < 16 && 3 <= |section| <= 100 && section[1] == 0xb0 && section[2] == |section| + 1
    ensures
      var p := PsiPacket(b1, b2, cc, section);
      && SectionOf(p) == section + CrcBytes(BitCrc(START, section)) && BitCrc(START, SectionOf(p)) == 0
      && Pid(p) == 256 * (b1 as int % 32) + b2 && |SectionOf(p)| == |section| + 4
  {
    hide BitCrc, CrcBytes, Repeat;
    var crc := CrcBytes(BitCrc(START, section));
    Middle([0x47, b1, b2, 0x10 + cc, 0], section, crc, Repeat(0xff, PACKET_LEN - 9 - |section|));
    Residue(section);
  }

  /** Every table the muxer builds carries a checksum that verifies. */
  lemma TablesVerify(cc: nat, soundFormat: nat, hasVideo: bool)
    requires cc < 16
    ensures SectionOf(PatPacket(cc)) != [] && BitCrc(START, SectionOf(PatPacket(cc))) == 0 && Pid(PatPacket(cc)) == 0
    ensures
      var p := PmtPacket(cc, soundFormat, hasVideo);
      SectionOf(p) != [] && BitCrc(START, SectionOf(p)) == 0 && Pid(p) == 0x1001
  {
    hide PsiPacket, BitCrc, SectionOf, Pid;
    PsiSection(0x40, 0x00, cc, PAT_SECTION);
    PsiSection(0x50, 0x01, cc, PmtSection(soundFormat, hasVideo));
  }

  /** The packet around a section: sync byte, unit start, payload only, its counter, and ones behind the section. */
  predicate TableForm(p: seq<byte>, cc: nat)
    requires |p| == PACKET_LEN
  {
    && p[0] == 0x47 && p[1] / 32 == 2 && p[3] == 0x10 + cc && p[4] == 0
    && forall i | 5 + |SectionOf(p)| <= i < 188 :: p[i] == 0xff
  }

  lemma PsiForm(b1: byte, b2: byte, cc: nat, section: seq<byte>)
    requires cc < 16 && 3 <= |section| <= 100 && section[1] == 0xb0 && section[2] == |section| + 1 && b1 / 32 == 2
    ensures TableForm(PsiPacket(b1, b2, cc, section), cc)
  {
    PsiSection(b1, b2, cc, section);
    hide BitCrc, CrcBytes, SectionOf;
  }

  /** A receiver finds each table at the start of a packet of its own, whose remainder is stuffing. */
  lemma TablesFramed(cc: nat, soundFormat: nat, hasVideo: bool)
    requires cc < 16
    ensures TableForm(PatPacket(cc), cc) && TableForm(PmtPacket(cc, soundFormat, hasVideo), cc)
  {
    hide PsiPacket, BitCrc, TableForm;
    PsiForm(0x40, 0x00, cc, PAT_SECTION);
    PsiForm(0x50, 0x01, cc, PmtSection(soundFormat, hasVideo));
  }

  // ---- what the tables say ----

  /** An entry of a table: a program or a stream type, with its PID. */
  datatype Entry = Entry(kind: nat, pid: nat)

  function Pid13(high: byte, low: byte): nat
  { high as int % 32 * 256 + low }

  /** The programs listed between the eight header bytes of a PAT and its checksum. */
  function ProgramsIn(s: seq<byte>): seq<Entry>
  { if |s| < 4 then [] else [Entry(s[0] as int * 256 + s[1], Pid13(s[2], s[3]))] + ProgramsIn(s[4..]) }

  /** The elementary streams of a PMT; each entry says how many descriptor bytes follow it. */
  function StreamsIn(s: seq<byte>): seq<Entry>
    decreases |s|
  {
    if |s| < 5 then [] else
      var skip := 5 + s[3] as int % 16 * 256 + s[4];
      [Entry(s[0], Pid13(s[1], s[2]))] + if skip <= |s| then StreamsIn(s[skip..]) else []
  }

  /** A section with its checksum: table id, length, id 1, version 0 in force, and the first section of one. */
  predicate HasForm(s: seq<byte>, tableId: byte)
  {
    && |s| >= 12 && s[0] == tableId && s[1] / 16 == 0xb && s[1] as int % 16 * 256 + s[2] == |s| - 3
    && s[3] as int * 256 + s[4] == 1 && s[5] == 0xc1 && s[6] == s[7] == 0
  }

  function AudioEntry(soundFormat: nat): Entry
  { Entry(if soundFormat == 2 || soundFormat == 14 then 4 else 15, 0x101) }

  lemma AudioInfo(soundFormat: nat)
    ensures StreamsIn(ProgramInfo(soundFormat, false)) == [AudioEntry(soundFormat)]
  {
    var info := ProgramInfo(soundFormat, false);
    assert info[5..] == [] && StreamsIn([]) == [];
  }

  lemma InfoStreams(soundFormat: nat, hasVideo: bool)
    ensures StreamsIn(ProgramInfo(soundFormat, hasVideo)) == (if hasVideo then [Entry(0x1b, 0x100)] else [])
            + [AudioEntry(soundFormat)]
  {
    var info := ProgramInfo(soundFormat, hasVideo);
    AudioInfo(soundFormat);
    if hasVideo {
      assert info[5..] == ProgramInfo(soundFormat, false);
      assert StreamsIn(info) == [Entry(info[0], Pid13(info[1], info[2]))] + StreamsIn(info[5..]);
    }
  }

  lemma PatDescribes(crc: seq<byte>)
    requires |crc| == 4
    ensures var s := PAT_SECTION + crc; HasForm(s, 0) && ProgramsIn(s[8..|s| - 4]) == [Entry(1, 0x1001)]
  {
    var s := PAT_SECTION + crc;
    assert s[8..|s| - 4] == [0x00, 0x01, 0xf0, 0x01];
  }

  /** The clock is on the first of the streams. */
  lemma PmtDescribes(soundFormat: nat, hasVideo: bool, crc: seq<byte>)
    requires |crc| == 4
    ensures
      var s := PmtSection(soundFormat, hasVideo) + crc;
      && HasForm(s, 2) && s[10] == 0xf0 && s[11] == 0
      && Pid13(s[8], s[9]) == (if hasVideo then 0x100 else 0x101)
      && StreamsIn(s[12..|s| - 4]) == (if hasVideo then [Entry(0x1b, 0x100)] else []) + [AudioEntry(soundFormat)]
  {
    var section := PmtSection(soundFormat, hasVideo);
    var s := section + crc;
    assert forall i | 0 <= i < 12 :: s[i] == section[i];
    InfoStreams(soundFormat, hasVideo);
    assert s[12..|s| - 4] == ProgramInfo(soundFormat, hasVideo);
    hide StreamsIn, ProgramInfo;
  }

  /** The PAT leads to one program, and its PMT to the audio PID and, if there is video, the video PID. */
  lemma TablesDescribe(cc: nat, soundFormat: nat, hasVideo: bool)
    requires cc < 16
    ensures var s := SectionOf(PatPacket(cc)); |s| == 16 && HasForm(s, 0) && ProgramsIn(s[8..12]) == [Entry(1, 0x1001)]
    ensures
      var s := SectionOf(PmtPacket(cc, soundFormat, hasVideo));
      && |s| >= 16 && HasForm(s, 2) && Pid13(s[8], s[9]) == (if hasVideo then 0x100 else 0x101)
      && s[10] == 0xf0 && s[11] == 0
      && StreamsIn(s[12..|s| - 4]) == (if hasVideo then [Entry(0x1b, 0x100)] else []) + [AudioEntry(soundFormat)]
  {
    hide PsiPacket, BitCrc, SectionOf, CrcBytes, HasForm, ProgramsIn, StreamsIn;
    PsiSection(0x40, 0x00, cc, PAT_SECTION);
    PsiSection(0x50, 0x01, cc, PmtSection(soundFormat, hasVideo));
    PatDescribes(CrcBytes(BitCrc(START, PAT_SECTION)));
    PmtDescribes(soundFormat, hasVideo, CrcBytes(BitCrc(START, PmtSection(soundFormat, hasVideo))));
  }
}
