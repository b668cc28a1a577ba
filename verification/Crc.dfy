/** The CRC-32 of PAT and PMT sections (ISO/IEC 13818-1, Annex A): polynomial 0x04C11DB7, start 0xFFFFFFFF. */
module Crc {
  import opened Bytes

  // ---- the definition, bit by bit ----

  /** One bit of division by the polynomial. */
  function Shift(c: bv32): bv32
  { if c & 0x8000_0000 == 0 then c << 1 else (c << 1) ^ 0x04C1_1DB7 }

  function ShiftN(c: bv32, n: nat): bv32
    decreases n
  { if n == 0 then c else ShiftN(Shift(c), n - 1) }

  function Xor(a: bv32, b: bv32): bv32
  { a ^ b }

  function BitStep(c: bv32, b: bv8): bv32
  { ShiftN(Xor(c, (b as bv32) << 24), 8) }

  function BitCrc(c: bv32, src: seq<byte>): bv32
  { if src == [] then c else BitStep(BitCrc(c, src[..|src| - 1]), src[|src| - 1] as bv8) }

  const START: bv32 := 0xFFFF_FFFF

  // ---- the table ----

  const ROW0: seq<bv32> := [
    0x0000_0000, 0x04c1_1db7, 0x0982_3b6e, 0x0d43_26d9, 0x1304_76dc, 0x17c5_6b6b, 0x1a86_4db2, 0x1e47_5005,
    0x2608_edb8, 0x22c9_f00f, 0x2f8a_d6d6, 0x2b4b_cb61, 0x350c_9b64, 0x31cd_86d3, 0x3c8e_a00a, 0x384f_bdbd]
  const ROW1: seq<bv32> := [
    0x4c11_db70, 0x48d0_c6c7, 0x4593_e01e, 0x4152_fda9, 0x5f15_adac, 0x5bd4_b01b, 0x5697_96c2, 0x5256_8b75,
    0x6a19_36c8, 0x6ed8_2b7f, 0x639b_0da6, 0x675a_1011, 0x791d_4014, 0x7ddc_5da3, 0x709f_7b7a, 0x745e_66cd]
  const ROW2: seq<bv32> := [
    0x9823_b6e0, 0x9ce2_ab57, 0x91a1_8d8e, 0x9560_9039, 0x8b27_c03c, 0x8fe6_dd8b, 0x82a5_fb52, 0x8664_e6e5,
    0xbe2b_5b58, 0xbaea_46ef, 0xb7a9_6036, 0xb368_7d81, 0xad2f_2d84, 0xa9ee_3033, 0xa4ad_16ea, 0xa06c_0b5d]
  const ROW3: seq<bv32> := [
    0xd432_6d90, 0xd0f3_7027, 0xddb0_56fe, 0xd971_4b49, 0xc736_1b4c, 0xc3f7_06fb, 0xceb4_2022, 0xca75_3d95,
    0xf23a_8028, 0xf6fb_9d9f, 0xfbb8_bb46, 0xff79_a6f1, 0xe13e_f6f4, 0xe5ff_eb43, 0xe8bc_cd9a, 0xec7d_d02d]
  const ROW4: seq<bv32> := [
    0x3486_7077, 0x3047_6dc0, 0x3d04_4b19, 0x39c5_56ae, 0x2782_06ab, 0x2343_1b1c, 0x2e00_3dc5, 0x2ac1_2072,
    0x128e_9dcf, 0x164f_8078, 0x1b0c_a6a1, 0x1fcd_bb16, 0x018a_eb13, 0x054b_f6a4, 0x0808_d07d, 0x0cc9_cdca]
  const ROW5: seq<bv32> := [
    0x7897_ab07, 0x7c56_b6b0, 0x7115_9069, 0x75d4_8dde, 0x6b93_dddb, 0x6f52_c06c, 0x6211_e6b5, 0x66d0_fb02,
    0x5e9f_46bf, 0x5a5e_5b08, 0x571d_7dd1, 0x53dc_6066, 0x4d9b_3063, 0x495a_2dd4, 0x4419_0b0d, 0x40d8_16ba]
  const ROW6: seq<bv32> := [
    0xaca5_c697, 0xa864_db20, 0xa527_fdf9, 0xa1e6_e04e, 0xbfa1_b04b, 0xbb60_adfc, 0xb623_8b25, 0xb2e2_9692,
    0x8aad_2b2f, 0x8e6c_3698, 0x832f_1041, 0x87ee_0df6, 0x99a9_5df3, 0x9d68_4044, 0x902b_669d, 0x94ea_7b2a]
  const ROW7: seq<bv32> := [
    0xe0b4_1de7, 0xe475_0050, 0xe936_2689, 0xedf7_3b3e, 0xf3b0_6b3b, 0xf771_768c, 0xfa32_5055, 0xfef3_4de2,
    0xc6bc_f05f, 0xc27d_ede8, 0xcf3e_cb31, 0xcbff_d686, 0xd5b8_8683, 0xd179_9b34, 0xdc3a_bded, 0xd8fb_a05a]
  const ROW8: seq<bv32> := [
    0x690c_e0ee, 0x6dcd_fd59, 0x608e_db80, 0x644f_c637, 0x7a08_9632, 0x7ec9_8b85, 0x738a_ad5c, 0x774b_b0eb,
    0x4f04_0d56, 0x4bc5_10e1, 0x4686_3638, 0x4247_2b8f, 0x5c00_7b8a, 0x58c1_663d, 0x5582_40e4, 0x5143_5d53]
  const ROW9: seq<bv32> := [
    0x251d_3b9e, 0x21dc_2629, 0x2c9f_00f0, 0x285e_1d47, 0x3619_4d42, 0x32d8_50f5, 0x3f9b_762c, 0x3b5a_6b9b,
    0x0315_d626, 0x07d4_cb91, 0x0a97_ed48, 0x0e56_f0ff, 0x1011_a0fa, 0x14d0_bd4d, 0x1993_9b94, 0x1d52_8623]
  const ROW10: seq<bv32> := [
    0xf12f_560e, 0xf5ee_4bb9, 0xf8ad_6d60, 0xfc6c_70d7, 0xe22b_20d2, 0xe6ea_3d65, 0xeba9_1bbc, 0xef68_060b,
    0xd727_bbb6, 0xd3e6_a601, 0xdea5_80d8, 0xda64_9d6f, 0xc423_cd6a, 0xc0e2_d0dd, 0xcda1_f604, 0xc960_ebb3]
  const ROW11: seq<bv32> := [
    0xbd3e_8d7e, 0xb9ff_90c9, 0xb4bc_b610, 0xb07d_aba7, 0xae3a_fba2, 0xaafb_e615, 0xa7b8_c0cc, 0xa379_dd7b,
    0x9b36_60c6, 0x9ff7_7d71, 0x92b4_5ba8, 0x9675_461f, 0x8832_161a, 0x8cf3_0bad, 0x81b0_2d74, 0x8571_30c3]
  const ROW12: seq<bv32> := [
    0x5d8a_9099, 0x594b_8d2e, 0x5408_abf7, 0x50c9_b640, 0x4e8e_e645, 0x4a4f_fbf2, 0x470c_dd2b, 0x43cd_c09c,
    0x7b82_7d21, 0x7f43_6096, 0x7200_464f, 0x76c1_5bf8, 0x6886_0bfd, 0x6c47_164a, 0x6104_3093, 0x65c5_2d24]
  const ROW13: seq<bv32> := [
    0x119b_4be9, 0x155a_565e, 0x1819_7087, 0x1cd8_6d30, 0x029f_3d35, 0x065e_2082, 0x0b1d_065b, 0x0fdc_1bec,
    0x3793_a651, 0x3352_bbe6, 0x3e11_9d3f, 0x3ad0_8088, 0x2497_d08d, 0x2056_cd3a, 0x2d15_ebe3, 0x29d4_f654]
  const ROW14: seq<bv32> := [
    0xc5a9_2679, 0xc168_3bce, 0xcc2b_1d17, 0xc8ea_00a0, 0xd6ad_50a5, 0xd26c_4d12, 0xdf2f_6bcb, 0xdbee_767c,
    0xe3a1_cbc1, 0xe760_d676, 0xea23_f0af, 0xeee2_ed18, 0xf0a5_bd1d, 0xf464_a0aa, 0xf927_8673, 0xfde6_9bc4]
  const ROW15: seq<bv32> := [
    0x89b8_fd09, 0x8d79_e0be, 0x803a_c667, 0x84fb_dbd0, 0x9abc_8bd5, 0x9e7d_9662, 0x933e_b0bb, 0x97ff_ad0c,
    0xafb0_10b1, 0xab71_0d06, 0xa632_2bdf, 0xa2f3_3668, 0xbcb4_666d, 0xb875_7bda, 0xb536_5d03, 0xb1f7_40b4]

  /** The 256 entries of the table, sixteen to a row. */
  const TABLE: seq<seq<bv32>> :=
    [ROW0, ROW1, ROW2, ROW3, ROW4, ROW5, ROW6, ROW7, ROW8, ROW9, ROW10, ROW11, ROW12, ROW13, ROW14, ROW15]

  /** What entry `j` must be: the remainder of `j` shifted past eight bits. */
  function Entry(j: bv8): bv32
  { ShiftN((j as bv32) << 24, 8) }

  function EntryRow(h: bv8): seq<bv32>
  {
    [Entry(h), Entry(h | 1), Entry(h | 2), Entry(h | 3), Entry(h | 4), Entry(h | 5), Entry(h | 6), Entry(h | 7),
     Entry(h | 8), Entry(h | 9), Entry(h | 10), Entry(h | 11),
     Entry(h | 12), Entry(h | 13), Entry(h | 14), Entry(h | 15)]
  }

  lemma Row0() ensures ROW0 == EntryRow(0x00) {}
  lemma Row1() ensures ROW1 == EntryRow(0x10) {}
  lemma Row2() ensures ROW2 == EntryRow(0x20) {}
  lemma Row3() ensures ROW3 == EntryRow(0x30) {}
  lemma Row4() ensures ROW4 == EntryRow(0x40) {}
  lemma Row5() ensures ROW5 == EntryRow(0x50) {}
  lemma Row6() ensures ROW6 == EntryRow(0x60) {}
  lemma Row7() ensures ROW7 == EntryRow(0x70) {}
  lemma Row8() ensures ROW8 == EntryRow(0x80) {}
  lemma Row9() ensures ROW9 == EntryRow(0x90) {}
  lemma Row10() ensures ROW10 == EntryRow(0xa0) {}
  lemma Row11() ensures ROW11 == EntryRow(0xb0) {}
  lemma Row12() ensures ROW12 == EntryRow(0xc0) {}
  lemma Row13() ensures ROW13 == EntryRow(0xd0) {}
  lemma Row14() ensures ROW14 == EntryRow(0xe0) {}
  lemma Row15() ensures ROW15 == EntryRow(0xf0) {}

  lemma RowAt(h: bv8, i: bv8)
    requires i < 16
    ensures 0 <= i as int < 16 && EntryRow(h)[i as int] == Entry(h | i)
  {
    hide Entry;
    match i as int {
      case 0 => case 1 => case 2 => case 3 => case 4 => case 5 => case 6 => case 7 =>
      case 8 => case 9 => case 10 => case 11 => case 12 => case 13 => case 14 => case _ =>
    }
  }

  function Lookup(j: bv8): bv32
  { RowAt(0, j & 15); HalfByte(j); TABLE[(j >> 4) as int][(j & 15) as int] }

  lemma HalfByte(j: bv8)
    ensures 0 <= (j >> 4) as int < 16 && 0 <= (j & 15) as int < 16 && ((j >> 4) << 4) | (j & 15) == j
  {}

  lemma RowsOk(k: bv8)
    requires k < 16
    ensures 0 <= k as int < 16 && TABLE[k as int] == EntryRow(k << 4)
  {
    hide EntryRow;
    match k as int {
      case 0 => Row0(); case 1 => Row1(); case 2 => Row2(); case 3 => Row3();
      case 4 => Row4(); case 5 => Row5(); case 6 => Row6(); case 7 => Row7();
      case 8 => Row8(); case 9 => Row9(); case 10 => Row10(); case 11 => Row11();
      case 12 => Row12(); case 13 => Row13(); case 14 => Row14(); case _ => Row15();
    }
  }

  /** The table holds the remainders it stands for. */
  lemma TableCorrect(j: bv8)
    ensures Lookup(j) == Entry(j)
  {
    hide Entry, EntryRow;
    HalfByte(j);
    RowsOk(j >> 4);
    RowAt((j >> 4) << 4, j & 15);
  }

  // ---- linearity ----

  lemma XorShift(a: bv32, b: bv32)
    ensures (a ^ b) << 1 == (a << 1) ^ (b << 1)
  {}

  lemma XorTop(a: bv32, b: bv32)
    ensures (a ^ b) & 0x8000_0000 == 0 <==> (a & 0x8000_0000 == 0 <==> b & 0x8000_0000 == 0)
  {}

  lemma XorTwice(a: bv32, b: bv32, p: bv32)
    ensures (a ^ p) ^ (b ^ p) == a ^ b && (a ^ p) ^ b == (a ^ b) ^ p && a ^ (b ^ p) == (a ^ b) ^ p
  {}

  lemma ShiftLinear(a: bv32, b: bv32)
    ensures Shift(Xor(a, b)) == Xor(Shift(a), Shift(b))
  {
    XorShift(a, b);
    XorTop(a, b);
    XorTwice(a << 1, b << 1, 0x04C1_1DB7);
  }

  lemma {:induction false} ShiftNLinear(a: bv32, b: bv32, n: nat)
    ensures ShiftN(Xor(a, b), n) == Xor(ShiftN(a, n), ShiftN(b, n))
    decreases n
  {
    hide Shift, Xor;
    if n > 0 {
      ShiftLinear(a, b);
      ShiftNLinear(Shift(a), Shift(b), n - 1);
    }
  }

  lemma LowBits(a: bv32, k: bv6)
    requires k < 8
    ensures ((a & 0x00ff_ffff) << k) & 0x8000_0000 == 0
    ensures ((a & 0x00ff_ffff) << k) << 1 == (a & 0x00ff_ffff) << (k + 1)
  {}

  lemma {:induction false} ShiftLowFrom(a: bv32, k: bv6)
    requires k <= 8
    ensures ShiftN((a & 0x00ff_ffff) << k, 8 - k as nat) == (a & 0x00ff_ffff) << 8
    decreases 8 - k as nat
  {
    if k < 8 {
      LowBits(a, k);
      ShiftLowFrom(a, k + 1);
    }
  }

  lemma ShiftLow(a: bv32)
    ensures ShiftN(a & 0x00ff_ffff, 8) == a << 8
  {
    ShiftLowFrom(a, 0);
    assert (a & 0x00ff_ffff) << 8 == a << 8;
    assert (a & 0x00ff_ffff) << 0 == a & 0x00ff_ffff;
  }

  lemma SplitTop(c: bv32, b: bv8)
    ensures c ^ ((b as bv32) << 24) == (c & 0x00ff_ffff) ^ ((((c >> 24) as bv8 ^ b) as bv32) << 24)
  {}

  lemma Combine(x: bv32, low: bv32, high: bv32, r: bv32, e: bv32)
    requires x == Xor(low, high) && ShiftN(low, 8) == r && ShiftN(high, 8) == e
    ensures ShiftN(x, 8) == Xor(r, e)
  { hide *; ShiftNLinear(low, high, 8); }

  function Index(c: bv32, b: bv8): bv8
  { (c >> 24) as bv8 ^ b }

  function Shl8(c: bv32): bv32
  { c << 8 }

  function Low24(c: bv32): bv32
  { c & 0x00ff_ffff }

  function Raise(j: bv8): bv32
  { (j as bv32) << 24 }

  lemma SplitStep(c: bv32, b: bv8)
    ensures Xor(c, Raise(b)) == Xor(Low24(c), Raise(Index(c, b)))
  { SplitTop(c, b); }

  lemma LowStep(c: bv32)
    ensures ShiftN(Low24(c), 8) == Shl8(c)
  { ShiftLow(c); }

  lemma EntryIs(j: bv8)
    ensures ShiftN(Raise(j), 8) == Lookup(j)
  { TableCorrect(j); hide Lookup, ShiftN; }

  lemma BitStepIs(c: bv32, b: bv8)
    ensures BitStep(c, b) == ShiftN(Xor(c, Raise(b)), 8)
  { hide ShiftN, Xor; }

  /** Eight bits of division are one table lookup. */
  lemma StepByTable(c: bv32, b: bv8)
    ensures BitStep(c, b) == Xor(Shl8(c), Lookup(Index(c, b)))
  {
    hide *;
    var j := Index(c, b);
    BitStepIs(c, b);
    SplitStep(c, b);
    LowStep(c);
    EntryIs(j);
    Combine(Xor(c, Raise(b)), Low24(c), Raise(j), Shl8(c), Lookup(j));
  }

  /** The table-driven checksum is the division bit by bit. */
  method GenCrc32(src: seq<byte>) returns (crc32: bv32)
    ensures crc32 == BitCrc(START, src)
  {
    crc32 := 0xFFFF_FFFF;
    for i := 0 to |src|
      invariant crc32 == BitCrc(START, src[..i])
    {
      var b := src[i] as bv8;
      StepByTable(crc32, b);
      assert src[..i + 1][..i] == src[..i];
      var j := Index(crc32, b);
      crc32 := Xor(Shl8(crc32), Lookup(j));
    }
    assert src[..|src|] == src;
  }

  /** The first of the digits 1 to 9 in ASCII. */
  function Ascii(n: nat): (s: seq<byte>)
    requires n <= 9
    ensures |s| == n
  { seq(n, i requires 0 <= i < n => 0x31 + i) }

  /** The check value that catalogues give for this CRC. */
  lemma CheckValue()
    ensures BitCrc(START, Ascii(9)) == 0x0376_E6E7
  {
    assert BitCrc(START, Ascii(0)) == 0xFFFF_FFFF;
    hide BitCrc, BitStep, Ascii;
    Digits();
    NextDigit(0, 0x31, 0xFFFF_FFFF, 0x9efb_cf93);
    NextDigit(1, 0x32, 0x9efb_cf93, 0x3fec_5e6a);
    NextDigit(2, 0x33, 0x3fec_5e6a, 0xd952_f164);
    NextDigit(3, 0x34, 0xd952_f164, 0xa695_c4aa);
    NextDigit(4, 0x35, 0xa695_c4aa, 0xbd9a_b747);
    NextDigit(5, 0x36, 0xbd9a_b747, 0xd8f0_6c8f);
    NextDigit(6, 0x37, 0xd8f0_6c8f, 0x0d8a_14c4);
    NextDigit(7, 0x38, 0x0d8a_14c4, 0x49e3_c2fb);
    NextDigit(8, 0x39, 0x49e3_c2fb, 0x0376_e6e7);
  }

  lemma Digits()
    ensures BitStep(0xFFFF_FFFF, 0x31) == 0x9efb_cf93 && BitStep(0x9efb_cf93, 0x32) == 0x3fec_5e6a
    ensures BitStep(0x3fec_5e6a, 0x33) == 0xd952_f164 && BitStep(0xd952_f164, 0x34) == 0xa695_c4aa
    ensures BitStep(0xa695_c4aa, 0x35) == 0xbd9a_b747 && BitStep(0xbd9a_b747, 0x36) == 0xd8f0_6c8f
    ensures BitStep(0xd8f0_6c8f, 0x37) == 0x0d8a_14c4 && BitStep(0x0d8a_14c4, 0x38) == 0x49e3_c2fb
    ensures BitStep(0x49e3_c2fb, 0x39) == 0x0376_e6e7
  {}

  lemma NextDigit(n: nat, b: bv8, c: bv32, c': bv32)
    requires n < 9 && b as int == 0x31 + n && BitCrc(START, Ascii(n)) == c && BitStep(c, b) == c'
    ensures BitCrc(START, Ascii(n + 1)) == c'
  {
    hide *;
    BackAndForth(b);
    NextByte(n, b as int, c, c');
  }

  lemma NextByte(n: nat, d: byte, c: bv32, c': bv32)
    requires n < 9 && d == 0x31 + n && BitCrc(START, Ascii(n)) == c && BitStep(c, d as bv8) == c'
    ensures BitCrc(START, Ascii(n + 1)) == c'
  {
    AsciiMore(n);
    hide *;
    BitCrcSnoc(START, Ascii(n), d);
  }

  lemma AsciiMore(n: nat)
    requires n < 9
    ensures Ascii(n + 1) == Ascii(n) + [0x31 + n]
  {}

  // ---- the residue ----

  /** The four bytes in which a checksum is written. */
  function CrcBytes(c: bv32): (s: seq<byte>)
    ensures |s| == 4
  {
    [(c >> 24) as bv8 as int, ((c >> 16) & 0xff) as bv8 as int, ((c >> 8) & 0xff) as bv8 as int,
      (c & 0xff) as bv8 as int]
  }

  lemma CancelTop(c: bv32)
    ensures c ^ ((((c >> 24) as bv8) as bv32) << 24) == c & 0x00ff_ffff
  {}

  lemma TopByteCancels(c: bv32)
    ensures BitStep(c, (c >> 24) as bv8) == c << 8
  {
    CancelTop(c);
    ShiftLow(c);
  }

  lemma BitCrcSnoc(c: bv32, s: seq<byte>, b: byte)
    ensures BitCrc(c, s + [b]) == BitStep(BitCrc(c, s), b as bv8)
  { assert (s + [b])[..|s|] == s; }

  /** A section followed by its checksum divides without remainder. */
  lemma Residue(s: seq<byte>)
    ensures BitCrc(START, s + CrcBytes(BitCrc(START, s))) == 0
  {
    var c := BitCrc(START, s);
    var w := CrcBytes(c);
    FourBytes(s, w);
    FourSteps(c);
    BitCrcSnoc(START, s, w[0]);
    BitCrcSnoc(START, s + [w[0]], w[1]);
    BitCrcSnoc(START, s + [w[0]] + [w[1]], w[2]);
    BitCrcSnoc(START, s + [w[0]] + [w[1]] + [w[2]], w[3]);
  }

  lemma FourBytes(s: seq<byte>, w: seq<byte>)
    requires |w| == 4
    ensures s + w == s + [w[0]] + [w[1]] + [w[2]] + [w[3]]
  {}

  /** Each of the four bytes is the top byte of what is left. */
  lemma FourSteps(c: bv32)
    ensures
      var w := CrcBytes(c);
      BitStep(BitStep(BitStep(BitStep(c, w[0] as bv8), w[1] as bv8), w[2] as bv8), w[3] as bv8) == 0
  {
    hide *;
    Step0(c);
    Step1(c);
    Step2(c);
    Step3(c);
  }

  lemma Step0(c: bv32)
    ensures BitStep(c, CrcBytes(c)[0] as bv8) == c << 8
  { hide BitStep; BackAndForth((c >> 24) as bv8); TopByteCancels(c); }

  lemma Step1(c: bv32)
    ensures BitStep(c << 8, CrcBytes(c)[1] as bv8) == c << 16
  {
    hide BitStep;
    assert CrcBytes(c)[1] as bv8 == ((c >> 16) & 0xff) as bv8 by { BackAndForth(((c >> 16) & 0xff) as bv8); }
    hide CrcBytes;
    SecondByte(c);
    TopByteCancels(c << 8);
  }

  lemma Step2(c: bv32)
    ensures BitStep(c << 16, CrcBytes(c)[2] as bv8) == c << 24
  { hide BitStep; BackAndForth(((c >> 8) & 0xff) as bv8); ThirdByte(c); TopByteCancels(c << 16); }

  lemma Step3(c: bv32)
    ensures BitStep(c << 24, CrcBytes(c)[3] as bv8) == 0
  { hide BitStep; BackAndForth((c & 0xff) as bv8); LastByte(c); TopByteCancels(c << 24); }

  lemma BackAndForth(b: bv8)
    ensures 0 <= b as int < 256 && (b as int) as bv8 == b
  {}

  lemma SecondByte(c: bv32)
    ensures ((c << 8) >> 24) as bv8 == ((c >> 16) & 0xff) as bv8 && (c << 8) << 8 == c << 16
  {}

  lemma ThirdByte(c: bv32)
    ensures ((c << 16) >> 24) as bv8 == ((c >> 8) & 0xff) as bv8 && (c << 16) << 8 == c << 24
  {}

  lemma LastByte(c: bv32)
    ensures ((c << 24) >> 24) as bv8 == (c & 0xff) as bv8 && (c << 24) << 8 == 0
  {}
}
