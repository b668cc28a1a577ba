/** H.264 access units: from length-prefixed NAL units to the byte stream of Annex B of ITU-T H.264. */
module AnnexB {
  import opened Bytes

  type Unit = seq<byte>

  const START_CODE: seq<byte> := [0, 0, 0, 1]
  const AUD_UNIT: Unit := [9, 0xf0]
  const AUD: seq<byte> := [0, 0, 0, 1, 9, 0xf0]

  const SLICE := 1
  const IDR := 5
  const SEI := 6
  const SPS := 7
  const PPS := 8

  function Type(u: Unit): nat
    requires u != []
  { u[0] % 32 }

  predicate IsKept(t: nat)
  { t == SLICE || t == IDR || t == SEI }

  predicate IsParameter(t: nat)
  { t == SPS || t == PPS }

  predicate NonEmpty(us: seq<Unit>)
  { forall i | 0 <= i < |us| :: us[i] != [] }

  // ---- the length-prefixed input ----

  /** The units of an input, or a failure when a length is zero, missing or too long. */
  function Units(src: seq<byte>): (r: Result<seq<Unit>>)
    ensures r.Ok? ==> NonEmpty(r.value)
  {
    if src == [] then Ok([])
    else if |src| < 4 then Err(Invalid)
    else
      var n := UnBE(src[..4]);
      if 0 < n <= |src| - 4 then
        var us :- Units(src[4 + n..]);
        Ok([src[4..4 + n]] + us)
      else Err(Invalid)
  }

  function Pack(us: seq<Unit>): seq<byte>
  { if us == [] then [] else BE(4, |us[0]|) + us[0] + Pack(us[1..]) }

  predicate Packable(us: seq<Unit>)
  { forall i | 0 <= i < |us| :: 0 < |us[i]| < 0x1_0000_0000 }

  lemma ThreeParts<T>(a: seq<T>, b: seq<T>, c: seq<T>)
    ensures var s := a + b + c; s[..|a|] == a && s[|a|..|a| + |b|] == b && s[|a| + |b|..] == c
  {}

  lemma {:induction false} UnitsOfPack(us: seq<Unit>)
    requires Packable(us)
    ensures Units(Pack(us)) == Ok(us)
  {
    if us != [] {
      var n, src := |us[0]|, Pack(us);
      Pow256Values();
      UnBEofBE(4, n);
      ModUnique(n, Pow256(4), 0, n);
      ThreeParts(BE(4, n), us[0], Pack(us[1..]));
      UnitsOfPack(us[1..]);
      UnitsStep(src);
      hide Units, UnBE, BE;
      assert [us[0]] + us[1..] == us;
    }
  }

  lemma Rejoin<T>(s: seq<T>, i: nat, j: nat)
    requires i <= j <= |s|
    ensures s == s[..i] + s[i..j] + s[j..]
  {}

  lemma ConsTail<T>(x: T, s: seq<T>)
    ensures ([x] + s)[1..] == s && ([x] + s)[0] == x
  {}

  lemma {:induction false} PackOfUnits(src: seq<byte>)
    requires Units(src).Ok?
    ensures Packable(Units(src).value) && Pack(Units(src).value) == src
  {
    if src != [] {
      var n := UnBE(src[..4]);
      Pow256Values();
      BEofUnBE(src[..4]);
      PackOfUnits(src[4 + n..]);
      var u, rest := src[4..4 + n], Units(src[4 + n..]).value;
      assert Units(src).value == [u] + rest;
      hide Units, UnBE, BE;
      ConsTail(u, rest);
      Rejoin(src, 4, 4 + n);
    }
  }

  /** The inputs that are read are exactly the concatenations of length-prefixed units. */
  lemma UnitsExact(src: seq<byte>, us: seq<Unit>)
    ensures Units(src) == Ok(us) <==> Packable(us) && src == Pack(us)
  {
    if Units(src) == Ok(us) { PackOfUnits(src); }
    if Packable(us) && src == Pack(us) { UnitsOfPack(us); }
  }

  // ---- the byte stream ----

  function Codes(us: seq<Unit>): seq<byte>
  { if us == [] then [] else START_CODE + us[0] + Codes(us[1..]) }

  function Kept(us: seq<Unit>): seq<Unit>
    requires NonEmpty(us)
  { if us == [] then [] else (if IsKept(Type(us[0])) then [us[0]] else []) + Kept(us[1..]) }

  function Parameters(us: seq<Unit>): seq<Unit>
    requires NonEmpty(us)
  { if us == [] then [] else (if IsParameter(Type(us[0])) then [us[0]] else []) + Parameters(us[1..]) }

  /** How many units come before the first IDR slice. */
  function BeforeIdr(us: seq<Unit>): (i: nat)
    requires NonEmpty(us)
    ensures i <= |us|
  { if us == [] || Type(us[0]) == IDR then 0 else 1 + BeforeIdr(us[1..]) }

  /**
   The stream of an access unit: the delimiter, then the kept units in order; just before the first
   IDR slice come the parameter sets seen so far, or the stored ones if there were none.
   */
  function Stream(us: seq<Unit>, stored: seq<byte>): seq<byte>
    requires NonEmpty(us)
  {
    var i := BeforeIdr(us);
    var inBand := Parameters(us[..i]);
    AUD + Codes(Kept(us[..i]))
    + (if i == |us| then [] else if inBand == [] then stored else Codes(inBand))
    + Codes(Kept(us[i..]))
  }

  lemma {:induction false} CodesAppend(a: seq<Unit>, b: seq<Unit>)
    ensures Codes(a + b) == Codes(a) + Codes(b)
  {
    if a == [] { EmptyUnit(b); EmptyUnit(Codes(b)); } else {
      TailOfAppend(a, b);
      CodesAppend(a[1..], b);
      Assoc(START_CODE + a[0], Codes(a[1..]), Codes(b));
    }
  }

  lemma {:induction false} KeptAppend(a: seq<Unit>, b: seq<Unit>)
    requires NonEmpty(a) && NonEmpty(b)
    ensures NonEmpty(a + b) && Kept(a + b) == Kept(a) + Kept(b) && Parameters(a + b) == Parameters(a) + Parameters(b)
  {
    if a == [] { EmptyUnit(b); EmptyUnit(Kept(b)); EmptyUnit(Parameters(b)); } else {
      TailOfAppend(a, b);
      KeptAppend(a[1..], b);
      Assoc(if IsKept(Type(a[0])) then [a[0]] else [], Kept(a[1..]), Kept(b));
      Assoc(if IsParameter(Type(a[0])) then [a[0]] else [], Parameters(a[1..]), Parameters(b));
    }
  }

  lemma {:induction false} BeforeIdrSnoc(us: seq<Unit>, u: Unit)
    requires NonEmpty(us) && u != []
    ensures NonEmpty(us + [u])
    ensures BeforeIdr(us + [u]) == if BeforeIdr(us) < |us| || Type(u) == IDR then BeforeIdr(us) else |us| + 1
  {
    if us != [] {
      TailOfAppend(us, [u]);
      if Type(us[0]) != IDR { BeforeIdrSnoc(us[1..], u); }
    }
  }

  /** The parameter sets that go with the first IDR slice. */
  function InBandOr(us: seq<Unit>, stored: seq<byte>): seq<byte>
    requires NonEmpty(us)
  { if Parameters(us) == [] then stored else Codes(Parameters(us)) }

  function Before(us: seq<Unit>): seq<byte>
    requires NonEmpty(us)
  { AUD + Codes(Kept(us)) }

  lemma StreamWithIdr(us: seq<Unit>, stored: seq<byte>, i: nat)
    requires NonEmpty(us) && i == BeforeIdr(us) < |us|
    ensures Stream(us, stored) == Before(us[..i]) + InBandOr(us[..i], stored) + Codes(Kept(us[i..]))
  {}

  lemma StreamWithoutIdr(us: seq<Unit>, stored: seq<byte>)
    requires NonEmpty(us) && BeforeIdr(us) == |us|
    ensures Stream(us, stored) == Before(us)
  {
    TakeAll(us);
    EmptyUnit(Before(us));
  }

  lemma SnocParts(a: seq<Unit>, b: seq<Unit>, u: Unit, stored: seq<byte>)
    requires NonEmpty(a) && NonEmpty(b) && u != []
    ensures NonEmpty(b + [u]) && NonEmpty([u])
    ensures Before(a) + InBandOr(a, stored) + Codes(Kept(b + [u]))
         == Before(a) + InBandOr(a, stored) + Codes(Kept(b)) + Codes(Kept([u]))
  {
    KeptAppend(b, [u]);
    CodesAppend(Kept(b), Kept([u]));
    hide *;
    Assoc(Before(a) + InBandOr(a, stored), Codes(Kept(b)), Codes(Kept([u])));
  }

  lemma NonEmptySlices(us: seq<Unit>, i: nat)
    requires NonEmpty(us) && i <= |us|
    ensures NonEmpty(us[..i]) && NonEmpty(us[i..])
  {}

  lemma StreamSnocAfter(us: seq<Unit>, u: Unit, stored: seq<byte>)
    requires NonEmpty(us) && u != [] && BeforeIdr(us) < |us|
    ensures NonEmpty(us + [u]) && NonEmpty([u]) && Stream(us + [u], stored) == Stream(us, stored) + Codes(Kept([u]))
  {
    var i := BeforeIdr(us);
    BeforeIdrSnoc(us, u);
    NonEmptySlices(us, i);
    hide *;
    StreamWithIdr(us, stored, i);
    StreamWithIdr(us + [u], stored, i);
    SnocSlices(us, u, i);
    SnocParts(us[..i], us[i..], u, stored);
  }

  lemma StreamSnocFirst(us: seq<Unit>, u: Unit, stored: seq<byte>)
    requires NonEmpty(us) && u != [] && BeforeIdr(us) == |us| && Type(u) == IDR
    ensures NonEmpty(us + [u]) && NonEmpty([u])
    ensures Stream(us + [u], stored) == Stream(us, stored) + InBandOr(us, stored) + Codes(Kept([u]))
  {
    BeforeIdrSnoc(us, u);
    SnocSlices(us, u, |us|);
    hide *;
    StreamWithoutIdr(us, stored);
    StreamWithIdr(us + [u], stored, |us|);
  }

  lemma StreamSnocBefore(us: seq<Unit>, u: Unit, stored: seq<byte>)
    requires NonEmpty(us) && u != [] && BeforeIdr(us) == |us| && Type(u) != IDR
    ensures NonEmpty(us + [u]) && NonEmpty([u]) && Stream(us + [u], stored) == Stream(us, stored) + Codes(Kept([u]))
  {
    BeforeIdrSnoc(us, u);
    hide *;
    StreamWithoutIdr(us, stored);
    StreamWithoutIdr(us + [u], stored);
    BeforeSnoc(us, u);
  }

  /** What one more unit adds to the stream. */
  lemma StreamSnoc(us: seq<Unit>, u: Unit, stored: seq<byte>)
    requires NonEmpty(us) && u != []
    ensures NonEmpty(us + [u]) && NonEmpty([u])
    ensures Stream(us + [u], stored)
         == (if BeforeIdr(us) == |us| && Type(u) == IDR then Stream(us, stored) + InBandOr(us, stored)
             else Stream(us, stored))
            + Codes(Kept([u]))
  {
    hide *;
    if BeforeIdr(us) < |us| { StreamSnocAfter(us, u, stored); }
    else if Type(u) == IDR { StreamSnocFirst(us, u, stored); }
    else { StreamSnocBefore(us, u, stored); }
  }

  lemma BeforeSnoc(us: seq<Unit>, u: Unit)
    requires NonEmpty(us) && u != []
    ensures NonEmpty(us + [u]) && NonEmpty([u]) && Before(us + [u]) == Before(us) + Codes(Kept([u]))
  {
    KeptAppend(us, [u]);
    CodesAppend(Kept(us), Kept([u]));
    Assoc(AUD, Codes(Kept(us)), Codes(Kept([u])));
  }

  lemma OneUnit(u: Unit)
    requires u != []
    ensures NonEmpty([u])
    ensures Kept([u]) == if u[0] % 32 in {1, 5, 6} then [u] else []
    ensures Parameters([u]) == if u[0] % 32 in {7, 8} then [u] else []
    ensures Codes([u]) == [0, 0, 0, 1] + u && Codes([]) == []
  { EmptyUnit(START_CODE + u); }

  lemma SnocSlices(us: seq<Unit>, u: Unit, i: nat)
    requires i <= |us|
    ensures (us + [u])[..i] == us[..i] && (us + [u])[i..] == us[i..] + [u]
    ensures (us + [u])[..|us| + 1] == us + [u] && (us + [u])[|us| + 1..] == [] && us[..|us|] == us && us[|us|..] == []
    ensures (us + [u])[..|us|] == us && (us + [u])[|us|..] == [u]
  {}

  // ---- the conversion ----

  /** `us` are the units of `src` before `left`. */
  predicate ReadSoFar(src: seq<byte>, left: seq<byte>, us: seq<Unit>)
  {
    match Units(left)
    case Ok(rest) => Units(src) == Ok(us + rest)
    case Err(_) => Units(src).Err?
  }

  lemma ReadSoFarStart(src: seq<byte>)
    ensures ReadSoFar(src, src, [])
  { if Units(src).Ok? { EmptyUnit(Units(src).value); } }

  lemma ReadSoFarStep(src: seq<byte>, left: seq<byte>, us: seq<Unit>)
    requires left != [] && ReadSoFar(src, left, us)
    ensures |left| < 4 ==> Units(src).Err?
    ensures |left| >= 4 ==>
              var n := UnBE(left[..4]);
              if 0 < n <= |left| - 4 then ReadSoFar(src, left[4 + n..], us + [left[4..4 + n]])
              else Units(src).Err?
  {
    UnitsStep(left);
    hide Units, UnBE;
    if |left| >= 4 {
      var n := UnBE(left[..4]);
      if 0 < n <= |left| - 4 {
        var u, rest := left[4..4 + n], left[4 + n..];
        if Units(rest).Ok? { Assoc(us, [u], Units(rest).value); }
      }
    }
  }

  lemma Slices<T>(s: seq<T>, i: nat, j: nat, k: nat)
    requires j <= k && i + k <= |s|
    ensures s[i..][j..k] == s[i + j..i + k] && s[i..][k..] == s[i + k..]
  {}

  lemma UnitsStep(s: seq<byte>)
    requires s != []
    ensures |s| < 4 ==> Units(s).Err?
    ensures |s| >= 4 ==>
              var n := UnBE(s[..4]);
              if 0 < n <= |s| - 4 then
                match Units(s[4 + n..])
                case Ok(rest) => Units(s) == Ok([s[4..4 + n]] + rest)
                case Err(_) => Units(s).Err?
              else Units(s).Err?
  {}

  lemma ReadSoFarEnd(src: seq<byte>, us: seq<Unit>)
    requires ReadSoFar(src, [], us)
    ensures Units(src) == Ok(us)
  { EmptyUnit(us); }

  /** The state of the conversion after the units `us`: sets collected, output, and the two flags. */
  ghost predicate After(us: seq<Unit>, stored: seq<byte>, pps: seq<byte>, out: seq<byte>, hasSpsPps: bool,
    written: bool)
    requires NonEmpty(us)
  {
    && (written <==> BeforeIdr(us) < |us|)
    && (hasSpsPps <==> Parameters(us) != [])
    && pps == Codes(Parameters(us))
    && out == Stream(us, stored)
  }

  lemma AfterStream(us: seq<Unit>, stored: seq<byte>, pps: seq<byte>, out: seq<byte>, hasSpsPps: bool, written: bool)
    requires NonEmpty(us) && After(us, stored, pps, out, hasSpsPps, written)
    ensures out == Stream(us, stored)
  {}

  /** What one more unit does to it. */
  lemma AfterUnit(us: seq<Unit>, u: Unit, stored: seq<byte>, pps: seq<byte>, out: seq<byte>, has: bool, written: bool)
    requires u != [] && NonEmpty(us) && After(us, stored, pps, out, has, written)
    ensures NonEmpty(us + [u])
    ensures
      var t := u[0] % 32;
      var out1 := if t == 5 && !written then out + (if has then pps else stored) else out;
      After(us + [u], stored,
            if t == 7 || t == 8 then pps + ([0, 0, 0, 1] + u) else pps,
            if t == 1 || t == 5 || t == 6 then out1 + ([0, 0, 0, 1] + u) else out1,
            has || t == 7 || t == 8, written || t == 5)
  {
    StreamSnoc(us, u, stored);
    BeforeIdrSnoc(us, u);
    KeptAppend(us, [u]);
    OneUnit(u);
    CodesAppend(Parameters(us), Parameters([u]));
    assert InBandOr(us, stored) == if has then pps else stored;
    assert Type(u) == u[0] % 32 && IDR == 5;
    hide Stream, BeforeIdr, Kept, Parameters, Codes, InBandOr, IsKept, IsParameter, Type;
    var t := if Type(u) == IDR && !written then out + InBandOr(us, stored) else out;
    EmptyUnit(t);
    EmptyUnit(pps);
    EmptyUnit(Parameters(us));
  }

  class Parser {
    var specificInfo: seq<byte>
    var pps: seq<byte>

    constructor ()
      ensures specificInfo == []
    { specificInfo, pps := [], []; }

    method NaluSize(src: seq<byte>) returns (r: Result<nat>)
      ensures r == if |src| < 4 then Err(Invalid) else Ok(UnBE(src[..4]))
    {
      if |src| < 4 { return Err(Invalid); }
      var size: nat := 0;
      for i := 0 to 4
        invariant size == UnBE(src[..i])
      {
        assert src[..i + 1][..i] == src[..i];
        size := size * 256 + (src[i] as int);
      }
      r := Ok(size);
    }

    method GetAnnexbH264(src: seq<byte>) returns (r: Result<()>, out: seq<byte>)
      modifies this`pps
      ensures r.Ok? <==> src != [] && Units(src).Ok?
      ensures r.Ok? ==> out == Stream(Units(src).value, specificInfo)
    {
      var dataSize := |src|;
      out := [];
      if dataSize < 4 { return Err(Invalid), out; }
      pps := [];
      out := out + AUD;
      var index := 0;
      var hasSpsPps, hasWriteSpsPps := false, false;
      ghost var us: seq<Unit> := [];
      ReadSoFarStart(src);
      ghost var left := src;
      assert src[0..] == src;
      hide Units, Stream, After, ReadSoFar;
      while dataSize > 0
        invariant 0 <= index && 0 <= dataSize && index + dataSize == |src| && left == src[index..]
        invariant NonEmpty(us) && After(us, specificInfo, pps, out, hasSpsPps, hasWriteSpsPps)
        invariant ReadSoFar(src, left, us)
        decreases dataSize
      {
        ReadSoFarStep(src, left, us);
        var nalLen := NaluSize(src[index..]);
        if nalLen.Err? { return Err(Invalid), out; }
        if !(dataSize - 4 >= nalLen.value && nalLen.value > 0) { return Err(Invalid), out; }
        Slices(src, index, 4, 4 + nalLen.value);
        index, dataSize := index + 4, dataSize - 4;
        var u := src[index..index + nalLen.value];
        out, hasSpsPps, hasWriteSpsPps := Convert(u, out, hasSpsPps, hasWriteSpsPps, us);
        us := us + [u];
        index, dataSize := index + nalLen.value, dataSize - nalLen.value;
        left := src[index..];
      }
      ReadSoFarEnd(src, us);
      AfterStream(us, specificInfo, pps, out, hasSpsPps, hasWriteSpsPps);
      r := Ok(());
    }

    /** One unit: slices and SEI are written, parameter sets collected, the rest dropped. */
    method Convert(u: Unit, out0: seq<byte>, has: bool, written: bool, ghost us: seq<Unit>)
      returns (out: seq<byte>, hasSpsPps: bool, hasWriteSpsPps: bool)
      requires u != [] && NonEmpty(us) && After(us, specificInfo, pps, out0, has, written)
      modifies this`pps
      ensures NonEmpty(us + [u]) && After(us + [u], specificInfo, pps, out, hasSpsPps, hasWriteSpsPps)
    {
      AfterUnit(us, u, specificInfo, pps, out0, has, written);
      hide After;
      out, hasSpsPps, hasWriteSpsPps := out0, has, written;
      var nalType := u[0] % 32;
      if nalType == IDR && !hasWriteSpsPps {
        hasWriteSpsPps := true;
        out := out + if !hasSpsPps then specificInfo else pps;
      }
      if nalType == IDR || nalType == SLICE || nalType == SEI {
        Assoc(out, START_CODE, u);
        out := out + START_CODE;
        out := out + u;
      } else if nalType == SPS || nalType == PPS {
        hasSpsPps := true;
        Assoc(pps, START_CODE, u);
        pps := pps + START_CODE;
        pps := pps + u;
      }
    }

    method ParseSpecificInfo(src: seq<byte>) returns (r: Result<()>)
      modifies this`specificInfo
      ensures match ParameterSets(src)
              case Ok(sets) => r.Ok? && specificInfo == old(specificInfo) + sets
              case Err(_) => r.Err? && specificInfo == old(specificInfo)
    {
      if |src| < 9 { return Err(Invalid); }
      var spsLen := src[6] as int * 256 + src[7];
      if |src[8..]| < spsLen || spsLen <= 0 { return Err(Invalid); }
      var sps := START_CODE + src[8..8 + spsLen];
      var tmpBuf := src[8 + spsLen..];
      if |tmpBuf| < 4 { return Err(Invalid); }
      var ppsLen := tmpBuf[1] as int * 256 + tmpBuf[2];
      if |tmpBuf[3..]| < ppsLen || ppsLen <= 0 { return Err(Invalid); }
      var pps := START_CODE + tmpBuf[3..];
      Assoc(specificInfo, sps, pps);
      specificInfo := specificInfo + sps;
      specificInfo := specificInfo + pps;
      r := Ok(());
    }

    /** A sequence header stores parameter sets; a frame already in stream form passes through. */
    method Parse(b: seq<byte>, isSeq: bool) returns (r: Result<()>, out: seq<byte>)
      modifies this`pps, this`specificInfo
      ensures r.Ok? <==> Converted(b, isSeq, old(specificInfo)).Ok?
      ensures r.Ok? ==> out == Converted(b, isSeq, old(specificInfo)).value
      ensures specificInfo == StoredAfter(b, isSeq, old(specificInfo))
    {
      out := [];
      if isSeq {
        r := ParseSpecificInfo(b);
      } else if IsNaluHeader(b) {
        r, out := Ok(()), b;
      } else {
        r, out := GetAnnexbH264(b);
      }
    }
  }

  predicate IsNaluHeader(src: seq<byte>)
  { |src| >= 4 && src[..4] == START_CODE }

  /** The start-coded sets of a sequence header: one SPS, then everything behind the first PPS length. */
  function ParameterSets(src: seq<byte>): Result<seq<byte>>
  {
    if |src| < 9 then Err(Invalid) else
      var spsLen := src[6] as int * 256 + src[7];
      if spsLen == 0 || |src| - 8 < spsLen + 4 then Err(Invalid) else
        var tail := src[8 + spsLen..];
        var ppsLen := tail[1] as int * 256 + tail[2];
        if ppsLen == 0 || |tail| - 3 < ppsLen then Err(Invalid)
        else Ok(START_CODE + src[8..8 + spsLen] + (START_CODE + tail[3..]))
  }

  /** A decoder configuration record with one SPS and what follows the length of its first PPS. */
  function Record(head: seq<byte>, sps: Unit, ppsNum: byte, ppsLen: nat, tail: seq<byte>): seq<byte>
  { head + BE(2, |sps|) + sps + [ppsNum] + BE(2, ppsLen) + tail }

  /** A record is read exactly if both lengths are positive and the second one is not beyond its end. */
  lemma RecordRead(head: seq<byte>, sps: Unit, ppsNum: byte, ppsLen: nat, tail: seq<byte>)
    requires |head| == 6 && |sps| < 0x1_0000 && ppsLen < 0x1_0000
    ensures ParameterSets(Record(head, sps, ppsNum, ppsLen, tail))
         == if sps != [] && 0 < ppsLen <= |tail| then Ok([0, 0, 0, 1] + sps + ([0, 0, 0, 1] + tail)) else Err(Invalid)
  {
    var src := Record(head, sps, ppsNum, ppsLen, tail);
    var rest := [ppsNum] + BE(2, ppsLen) + tail;
    BE2(|sps|);
    BE2(ppsLen);
    assert src == head + BE(2, |sps|) + sps + rest;
    assert src[6] == BE(2, |sps|)[0] && src[7] == BE(2, |sps|)[1] && src[8..8 + |sps|] == sps
           && src[8 + |sps|..] == rest;
    assert rest[1] == BE(2, ppsLen)[0] && rest[2] == BE(2, ppsLen)[1] && rest[3..] == tail;
  }

  /** What is too short for the first length and the second is no record. */
  lemma ShortRecord(src: seq<byte>)
    requires |src| < 8 || |src| < 11 + 0x100 * (src[6] as int) + src[7]
    ensures ParameterSets(src) == Err(Invalid)
  {}

  /** The stored sets of a record are its SPS and its first PPS exactly if nothing follows that PPS. */
  lemma SetsExact(head: seq<byte>, sps: Unit, ppsNum: byte, pps: Unit, tail: seq<byte>)
    requires |head| == 6 && 0 < |sps| < 0x1_0000 && 0 < |pps| < 0x1_0000
    ensures ParameterSets(Record(head, sps, ppsNum, |pps|, pps + tail)).Ok?
    ensures ParameterSets(Record(head, sps, ppsNum, |pps|, pps + tail)) == Ok(Codes([sps, pps])) <==> tail == []
  {
    RecordRead(head, sps, ppsNum, |pps|, pps + tail);
    TwoCodes(sps, pps);
    assert START_CODE == [0, 0, 0, 1];
    var sets := START_CODE + sps + (START_CODE + (pps + tail));
    assert |sets| == 8 + |sps| + |pps| + |tail|;
    hide *;
    if tail == [] { EmptyUnit(pps); }
  }

  lemma BE2(v: nat)
    requires v < 0x1_0000
    ensures BE(2, v) == [v / 256, v % 256]
  { assert BE(1, v / 256) == [v / 256] by { assert BE(0, 0) == []; } }

  lemma TwoCodes(a: Unit, b: Unit)
    ensures Codes([a, b]) == START_CODE + a + (START_CODE + b) && |Codes([a, b])| == 8 + |a| + |b|
  {
    assert Codes([b]) == START_CODE + b by { assert [b][1..] == []; EmptyUnit(START_CODE + b); }
    assert [a, b][1..] == [b] && [a, b][0] == a;
  }

  /** What a call of the parser writes, and the parameter sets it keeps. */
  function Converted(b: seq<byte>, isSeq: bool, stored: seq<byte>): Result<seq<byte>>
  {
    if isSeq then var sets :- ParameterSets(b); Ok([])
    else if IsNaluHeader(b) then Ok(b)
    else if b == [] then Err(Invalid)
    else var us :- Units(b); Ok(Stream(us, stored))
  }

  function StoredAfter(b: seq<byte>, isSeq: bool, stored: seq<byte>): seq<byte>
  { if isSeq && ParameterSets(b).Ok? then stored + ParameterSets(b).value else stored }

  /**
   A frame made of length-prefixed units becomes their stream unless its first unit is a single byte: the
   length prefix of that unit reads as a start code, and the frame passes through unconverted.
   */
  lemma Dispatches(us: seq<Unit>, stored: seq<byte>)
    requires Packable(us)
    ensures Converted(Pack(us), false, stored)
         == if us == [] then Err(Invalid) else Ok(if |us[0]| == 1 then Pack(us) else Stream(us, stored))
  {
    UnitsOfPack(us);
    if us != [] {
      ThreeParts(BE(4, |us[0]|), us[0], Pack(us[1..]));
      Pow256Values();
      UnBEofBE(4, |us[0]|);
      ModUnique(|us[0]|, Pow256(4), 0, |us[0]|);
      BEofUnBE(START_CODE);
      StartCodeValue();
      hide Units, Stream;
    }
  }

  lemma StartCodeValue()
    ensures UnBE(START_CODE) == 1
  {
    assert START_CODE[..3] == [0, 0, 0] && [0, 0, 0][..2] == [0, 0] && [0, 0][..1] == [0];
    assert UnBE([0]) == 0 && UnBE([0, 0]) == 0 && UnBE([0, 0, 0]) == 0;
  }

  // ---- scanning a byte stream ----

  /** A unit ends where 00 00 00 or 00 00 01 begins. */
  predicate Boundary(s: seq<byte>, i: nat)
  { i + 3 <= |s| && s[i] == 0 && s[i + 1] == 0 && s[i + 2] <= 1 }

  function UnitEnd(s: seq<byte>, i: nat): (e: nat)
    requires i <= |s|
    ensures i <= e <= |s|
    decreases |s| - i
  { if i == |s| || Boundary(s, i) then i else UnitEnd(s, i + 1) }

  /** Leading zeros are skipped up to 00 00 01, then a unit is taken. */
  function Scan(s: seq<byte>): seq<Unit>
    decreases |s|
  {
    if |s| < 3 then []
    else if s[0] == 0 && s[1] == 0 && s[2] == 1 then
      var e := UnitEnd(s, 3);
      [s[3..e]] + Scan(s[e..])
    else Scan(s[1..])
  }

  /** A unit that escapes start codes, as the standard requires of NAL units. */
  predicate Escaped(u: Unit)
  { u != [] && u[|u| - 1] != 0 && forall i | 0 <= i < |u| :: !Boundary(u, i) }

  predicate AllEscaped(us: seq<Unit>)
  { forall i | 0 <= i < |us| :: Escaped(us[i]) }

  lemma {:induction false} UnitEndFrom(u: Unit, rest: seq<byte>, i: nat)
    requires Escaped(u) && 3 <= i <= 3 + |u|
    requires rest == [] || (|rest| >= 3 && rest[..3] == [0, 0, 0])
    ensures UnitEnd([0, 0, 1] + u + rest, i) == 3 + |u|
    decreases 3 + |u| - i
  {
    var s := [0, 0, 1] + u + rest;
    if i == 3 + |u| {
      if rest != [] { assert s[i] == rest[0] && s[i + 1] == rest[1] && s[i + 2] == rest[2]; }
    } else {
      assert !Boundary(u, i - 3);
      assert s[2 + |u|] == u[|u| - 1];
      assert forall j | i <= j < 3 + |u| :: s[j] == u[j - 3];
      UnitEndFrom(u, rest, i + 1);
    }
  }

  lemma ScanUnit(u: Unit, rest: seq<byte>)
    requires Escaped(u) && (rest == [] || (|rest| >= 3 && rest[..3] == [0, 0, 0]))
    ensures Scan(START_CODE + u + rest) == [u] + Scan(rest)
  {
    CodeParts(u, rest);
    hide *;
    var s, t := [0, 0, 1] + u + rest, START_CODE + u + rest;
    ScanZero(t);
    UnitEndFrom(u, rest, 3);
    ScanCode(s);
  }

  lemma CodeParts(u: Unit, rest: seq<byte>)
    ensures var t := START_CODE + u + rest; t[1..] == [0, 0, 1] + u + rest && |t| >= 3 && t[2] == 0
    ensures var s := [0, 0, 1] + u + rest;
            |s| >= 3 && s[0] == 0 && s[1] == 0 && s[2] == 1 && s[3..3 + |u|] == u && s[3 + |u|..] == rest
  {}

  lemma ScanZero(s: seq<byte>)
    requires |s| >= 3 && s[2] != 1
    ensures Scan(s) == Scan(s[1..])
  { hide UnitEnd; }

  lemma ScanCode(s: seq<byte>)
    requires |s| >= 3 && s[0] == 0 && s[1] == 0 && s[2] == 1
    ensures var e := UnitEnd(s, 3); Scan(s) == [s[3..e]] + Scan(s[e..])
  { hide UnitEnd; }

  /** Scanning for start codes recovers escaped units. */
  lemma {:induction false} ScanCodes(us: seq<Unit>)
    requires AllEscaped(us)
    ensures Scan(Codes(us)) == us
  {
    if us != [] {
      var rest := Codes(us[1..]);
      assert us[1..] != [] ==> rest[..3] == [0, 0, 0];
      ScanCodes(us[1..]);
      ScanUnit(us[0], rest);
      assert [us[0]] + us[1..] == us;
    }
  }

  /** The units of some types, which are the low five bits of the first byte, in order. */
  function OfTypes(us: seq<Unit>, types: set<nat>): seq<Unit>
    requires NonEmpty(us)
  { if us == [] then [] else (if us[0][0] % 32 in types then [us[0]] else []) + OfTypes(us[1..], types) }

  lemma {:induction false} OfTypesAre(us: seq<Unit>)
    requires NonEmpty(us)
    ensures Kept(us) == OfTypes(us, {1, 5, 6}) && Parameters(us) == OfTypes(us, {7, 8})
  { if us != [] { OfTypesAre(us[1..]); } }

  lemma {:induction false} BeforeIdrIs(us: seq<Unit>, i: nat)
    requires NonEmpty(us) && i <= |us| && (forall j | 0 <= j < i :: us[j][0] % 32 != 5)
    requires i < |us| ==> us[i][0] % 32 == 5
    ensures BeforeIdr(us) == i
  {
    if i > 0 {
      assert us[1..] != [] ==> forall j | 0 <= j < i - 1 :: us[1..][j] == us[j + 1];
      BeforeIdrIs(us[1..], i - 1);
    }
  }

  /**
   The units of the stream of an access unit whose first IDR slice (type 5) is the unit `i`: a delimiter,
   slices and SEI (types 1, 5 and 6), and before that slice the SPS and PPS (7 and 8) seen, or the stored ones.
  */
  function StreamUnits(us: seq<Unit>, stored: seq<Unit>, i: nat): seq<Unit>
    requires NonEmpty(us) && i <= |us|
  {
    var inBand := OfTypes(us[..i], {7, 8});
    [[9, 0xf0]] + OfTypes(us[..i], {1, 5, 6})
    + (if i == |us| then [] else if inBand == [] then stored else inBand)
    + OfTypes(us[i..], {1, 5, 6})
  }

  lemma StreamIsCodes(us: seq<Unit>, stored: seq<Unit>, i: nat)
    requires NonEmpty(us) && i == BeforeIdr(us)
    ensures Stream(us, Codes(stored)) == Codes(StreamUnits(us, stored, i))
  {
    var inBand := Parameters(us[..i]);
    var middle := if i == |us| then [] else if inBand == [] then stored else inBand;
    OfTypesAre(us[..i]);
    OfTypesAre(us[i..]);
    assert NonEmpty([AUD_UNIT]) && Codes([AUD_UNIT]) == AUD by { OneUnit(AUD_UNIT); }
    CodesAppend([AUD_UNIT], Kept(us[..i]));
    CodesAppend([AUD_UNIT] + Kept(us[..i]), middle);
    CodesAppend([AUD_UNIT] + Kept(us[..i]) + middle, Kept(us[i..]));
  }

  lemma {:induction false} KeptEscaped(us: seq<Unit>)
    requires NonEmpty(us) && AllEscaped(us)
    ensures AllEscaped(Kept(us)) && AllEscaped(Parameters(us))
  { if us != [] { KeptEscaped(us[1..]); } }

  /** A receiver that scans the stream finds the kept units, with the parameter sets before the first IDR slice. */
  lemma ScanStream(us: seq<Unit>, stored: seq<Unit>, i: nat)
    requires NonEmpty(us) && AllEscaped(us) && AllEscaped(stored)
    requires i <= |us| && (forall j | 0 <= j < i :: us[j][0] % 32 != 5) && (i < |us| ==> us[i][0] % 32 == 5)
    ensures Scan(Stream(us, Codes(stored))) == StreamUnits(us, stored, i)
  {
    BeforeIdrIs(us, i);
    KeptEscaped(us[..i]);
    KeptEscaped(us[i..]);
    OfTypesAre(us[..i]);
    OfTypesAre(us[i..]);
    StreamIsCodes(us, stored, i);
    assert Escaped(AUD_UNIT);
    hide OfTypes, Kept, Parameters, BeforeIdr, Stream, Scan, Codes, Escaped;
    ScanCodes(StreamUnits(us, stored, i));
  }
}
