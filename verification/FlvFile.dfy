/** FLV files (Adobe FLV 10.1, sections E.2 to E.4) as `container/flv` writes and reads them. */
module FlvFile {
  import opened Av
  import opened Bytes
  import FlvTag
  import Metadata

  const HEADER_LEN := 11
  const FLV_HEADER: seq<byte> := [0x46, 0x4c, 0x56, 1, 5, 0, 0, 0, 9]
  const FIRST_HEADER: seq<byte> := [0x46, 0x4c, 0x56, 1, 5, 0, 0, 0, 9, 0, 0, 0, 0]

  /** The tag type of a packet; a packet without a flag has none. */
  function Type(p: Packet): byte
  { if p.isVideo || p.isMetadata || p.isAudio then p.Type() else 0 }

  function OfType(t: byte, ts: u32, data: seq<byte>): Packet
  { Packet(t == TAG_AUDIO, t == TAG_VIDEO, t == TAG_SCRIPT, ts, 0, data) }

  // ---- writing ----

  /** The header of a tag: the low 24 bits of its data length, its time stamp in two parts, and stream 0. */
  function HeaderBytes(t: byte, n: nat, ts: u32): seq<byte>
  { [t] + BE(3, n) + BE(3, ts) + [ts / 0x100_0000] + BE(3, 0) }

  function TagBytes(t: byte, ts: u32, data: seq<byte>): seq<byte>
  { HeaderBytes(t, |data|, ts) + data + BE(4, |data| + HEADER_LEN) }

  /** The tag of a packet; none for a packet of no type. */
  function Tag(p: Packet): Result<seq<byte>>
  {
    if Type(p) == TAG_SCRIPT then
      var body :- Metadata.Reform(p.data, Metadata.Del);
      Ok(TagBytes(TAG_SCRIPT, p.ts, body))
    else Ok(if Type(p) == 0 then [] else TagBytes(Type(p), p.ts, p.data))
  }

  // ---- reading ----

  /** A packet as read, with its media header; metadata has none. */
  datatype Item = Item(p: Packet, tag: FlvTag.Tag)

  const NO_TAG := FlvTag.Tag(0, 0, 0, 0, 0, 0)

  datatype TagHeader = TagHeader(t: byte, size: nat, ts: u32)

  function TakeHeader(s: seq<byte>): (r: Result<Parsed<TagHeader>>)
    ensures r.Ok? ==> |r.value.rest| < |s| && r.value.val.size < 0x100_0000
  {
    Pow256Values();
    var t :- TakeBE(1, s);
    var size :- TakeBE(3, t.rest);
    var low :- TakeBE(3, size.rest);
    var high :- TakeBE(1, low.rest);
    var id :- TakeBE(3, high.rest);
    Ok(Parsed(TagHeader(t.val, size.val, high.val * 0x100_0000 + low.val), id.rest))
  }

  function ReadTag(s: seq<byte>): (r: Result<Parsed<Item>>)
    ensures r.Ok? ==> |r.value.rest| < |s|
  {
    var h :- TakeHeader(s);
    var data :- Take(h.val.size, h.rest);
    var pre :- TakeBE(4, data.rest);
    if pre.val != h.val.size + HEADER_LEN then Err(Invalid) else
      var item :- Finish(h.val.t, h.val.ts, data.val);
      Ok(Parsed(item, pre.rest))
  }

  /** Metadata gets its command back; anything else must have a media header. */
  function Finish(t: byte, ts: u32, data: seq<byte>): Result<Item>
  {
    if t == TAG_SCRIPT then
      var body :- Metadata.Reform(data, Metadata.Add);
      Ok(Item(OfType(t, ts, body), NO_TAG))
    else
      var tag :- FlvTag.ParseTag(data, t == TAG_VIDEO);
      Ok(Item(OfType(t, ts, data), tag.tag))
  }

  /** The items of a file after its header, and the error that ends it. */
  function ReadTags(s: seq<byte>): (seq<Item>, Error)
    decreases |s|
  {
    match ReadTag(s)
    case Err(e) => ([], e)
    case Ok(p) => var (items, e) := ReadTags(p.rest); ([p.val] + items, e)
  }

  function ReadFile(s: seq<byte>): (seq<Item>, Error)
  {
    if |s| < 9 then ([], Eof)
    else if s[..9] != FLV_HEADER then ([], Invalid)
    else if |s| < 13 then ([], Eof)
    else if s[9..13] != [0, 0, 0, 0] then ([], Invalid)
    else ReadTags(s[13..])
  }

  // ---- round trips ----

  lemma Grouped(a: seq<byte>, b: seq<byte>, c: seq<byte>, d: seq<byte>, e: seq<byte>, rest: seq<byte>)
    ensures a + b + c + d + e + rest == a + (b + (c + (d + (e + rest))))
  {
    Assoc(a + b + c + d, e, rest);
    Assoc(a + b + c, d, e + rest);
    Assoc(a + b, c, d + (e + rest));
    Assoc(a, b, c + (d + (e + rest)));
  }

  lemma TakeField(n: nat, v: nat, rest: seq<byte>)
    requires n <= 4
    ensures TakeBE(n, BE(n, v) + rest) == Ok(Parsed(v % Pow256(n), rest))
  {
    TakeAppend(BE(n, v), rest);
    UnBEofBE(n, v);
  }

  lemma TakeOne(b: byte, rest: seq<byte>)
    ensures TakeBE(1, [b] + rest) == Ok(Parsed(b, rest))
  {
    assert BE(1, b) == [b] by { assert BE(0, b / 256) == []; }
    Pow256Values();
    TakeBEAppend(1, b, rest);
  }

  lemma HeaderOfFields(s: seq<byte>, t: byte, s2: seq<byte>, n: nat, s3: seq<byte>, low: nat, s4: seq<byte>,
                       high: byte, s5: seq<byte>, rest: seq<byte>)
    requires TakeBE(1, s) == Ok(Parsed(t, s2)) && TakeBE(3, s2) == Ok(Parsed(n, s3))
    requires TakeBE(3, s3) == Ok(Parsed(low, s4)) && TakeBE(1, s4) == Ok(Parsed(high, s5))
    requires TakeBE(3, s5) == Ok(Parsed(0, rest)) && low < 0x100_0000
    ensures TakeHeader(s) == Ok(Parsed(TagHeader(t, n, high * 0x100_0000 + low), rest))
  { hide TakeBE; }

  /** A tag header is read as it was written, but for the length beyond 24 bits. */
  lemma HeaderBack(t: byte, n: nat, ts: u32, rest: seq<byte>)
    ensures TakeHeader(HeaderBytes(t, n, ts) + rest) == Ok(Parsed(TagHeader(t, n % 0x100_0000, ts), rest))
  {
    var high: byte := ts / 0x100_0000;
    var s5 := BE(3, 0) + rest;
    var s4 := [high] + s5;
    var s3 := BE(3, ts) + s4;
    var s2 := BE(3, n) + s3;
    Pow256Values();
    assert high * 0x100_0000 + ts % 0x100_0000 == ts;
    assert HeaderBytes(t, n, ts) == [t] + BE(3, n) + BE(3, ts) + [high] + BE(3, 0);
    hide *;
    Grouped([t], BE(3, n), BE(3, ts), [high], BE(3, 0), rest);
    TakeOne(t, s2);
    TakeField(3, n, s3);
    TakeField(3, ts, s4);
    TakeOne(high, s5);
    TakeField(3, 0, rest);
    HeaderOfFields([t] + s2, t, s2, n % 0x100_0000, s3, ts % 0x100_0000, s4, high, s5, rest);
  }

  lemma TagOfParts(s: seq<byte>, h: TagHeader, s1: seq<byte>, data: seq<byte>, s2: seq<byte>, rest: seq<byte>)
    requires TakeHeader(s) == Ok(Parsed(h, s1)) && Take(h.size, s1) == Ok(Parsed(data, s2))
    requires TakeBE(4, s2) == Ok(Parsed(h.size + HEADER_LEN, rest))
    ensures ReadTag(s)
         == match Finish(h.t, h.ts, data) case Ok(item) => Ok(Parsed(item, rest)) case Err(e) => Err(e)
  { hide TakeHeader, TakeBE, Take, Finish; }

  /** What the reader makes of the fields of a tag that was written. */
  lemma ReadsFields(t: byte, ts: u32, data: seq<byte>, rest: seq<byte>)
    requires |data| < 0x100_0000
    ensures ReadTag(TagBytes(t, ts, data) + rest)
         == match Finish(t, ts, data) case Ok(item) => Ok(Parsed(item, rest)) case Err(e) => Err(e)
  {
    var n := |data|;
    var h, end := HeaderBytes(t, n, ts), BE(4, n + HEADER_LEN);
    Pow256Values();
    assert TagBytes(t, ts, data) == h + data + end && n % 0x100_0000 == n;
    hide *;
    Assoc(h + data, end, rest);
    Assoc(h, data, end + rest);
    HeaderBack(t, n, ts, data + (end + rest));
    TakeAppend(data, end + rest);
    TakeBEAppend(4, n + HEADER_LEN, rest);
    TagOfParts(h + (data + (end + rest)), TagHeader(t, n, ts), data + (end + rest), data, end + rest, rest);
  }

  /** A tag is read as it was written exactly when its data length fits 24 bits. */
  lemma MediaExact(t: byte, ts: u32, data: seq<byte>, rest: seq<byte>)
    requires (t == TAG_VIDEO || t == TAG_AUDIO) && FlvTag.ParseTag(data, t == TAG_VIDEO).Ok?
    ensures
      ReadTag(TagBytes(t, ts, data) + rest)
        == Ok(Parsed(Item(OfType(t, ts, data), FlvTag.ParseTag(data, t == TAG_VIDEO).value.tag), rest))
      <==> |data| < 0x100_0000
  {
    if |data| < 0x100_0000 {
      ReadsFields(t, ts, data, rest);
    } else {
      hide TakeHeader, TakeBE, FlvTag.ParseTag, TagBytes;
    }
  }

  // ---- whole files ----

  /** What can be read back: media with a header, metadata that has its added form, and at most 24 bits of length. */
  predicate Readable(p: Packet)
  {
    if Type(p) == 0 then true
    else if Type(p) == TAG_SCRIPT then
      var body := Metadata.Reform(p.data, Metadata.Del);
      body.Ok? ==> |body.value| < 0x100_0000 && Metadata.Reform(body.value, Metadata.Add).Ok?
    else |p.data| < 0x100_0000 && FlvTag.ParseTag(p.data, p.isVideo).Ok?
  }

  /** The item that comes back for a packet: none for no type, or for metadata that was refused. */
  function Back(p: Packet): seq<Item>
    requires Readable(p)
  {
    if Type(p) == 0 || Tag(p).Err? then []
    else if Type(p) == TAG_SCRIPT then
      var body := Metadata.Reform(p.data, Metadata.Del).value;
      [Item(OfType(TAG_SCRIPT, p.ts, Metadata.Reform(body, Metadata.Add).value), NO_TAG)]
    else [Item(OfType(Type(p), p.ts, p.data), FlvTag.ParseTag(p.data, p.isVideo).value.tag)]
  }

  function Tags(ps: seq<Packet>): seq<byte>
  { if ps == [] then [] else (if Tag(ps[0]).Ok? then Tag(ps[0]).value else []) + Tags(ps[1..]) }

  function AllBack(ps: seq<Packet>): seq<Item>
    requires forall i | 0 <= i < |ps| :: Readable(ps[i])
  { if ps == [] then [] else Back(ps[0]) + AllBack(ps[1..]) }

  lemma OneBack(p: Packet, rest: seq<byte>)
    requires Readable(p)
    ensures var w := if Tag(p).Ok? then Tag(p).value else [];
            if Back(p) == [] then w == [] else |Back(p)| == 1 && ReadTag(w + rest) == Ok(Parsed(Back(p)[0], rest))
  {
    if Type(p) == TAG_SCRIPT {
      var body := Metadata.Reform(p.data, Metadata.Del);
      if body.Ok? { ReadsFields(TAG_SCRIPT, p.ts, body.value, rest); }
    } else if Type(p) != 0 {
      ReadsFields(Type(p), p.ts, p.data, rest);
    }
    hide ReadTag, TagBytes, Metadata.Reform, FlvTag.ParseTag;
  }

  lemma {:induction false} TagsBack(ps: seq<Packet>)
    requires forall i | 0 <= i < |ps| :: Readable(ps[i])
    ensures ReadTags(Tags(ps)) == (AllBack(ps), Eof)
  {
    if ps != [] {
      var w := if Tag(ps[0]).Ok? then Tag(ps[0]).value else [];
      OneBack(ps[0], Tags(ps[1..]));
      TagsBack(ps[1..]);
      hide ReadTag, Tag, Back;
      EmptyUnit(Tags(ps[1..]));
      EmptyUnit(AllBack(ps[1..]));
    }
  }

  /** Reading a file gives back its packets in order, with types, time stamps and media headers. */
  lemma FileRoundTrip(ps: seq<Packet>)
    requires forall i | 0 <= i < |ps| :: Readable(ps[i])
    ensures ReadFile([0x46, 0x4c, 0x56, 1, 5, 0, 0, 0, 9, 0, 0, 0, 0] + Tags(ps)) == (AllBack(ps), Eof)
  {
    hide ReadFile, ReadTags, Tags, AllBack, Readable;
    BehindHeader(Tags(ps));
    TagsBack(ps);
  }

  /**
   A tag: 8 for audio, 9 for video and 18 for metadata, which loses its command; the length, the low and the high
   part of the time stamp, stream 0, the data, and the length of all that.
  */
  lemma TagLayout(p: Packet)
    ensures
      var t := if p.isVideo then 9 else if p.isMetadata then 18 else 8;
      var data := if t == 18 then Metadata.Reform(p.data, Metadata.Del) else Ok(p.data);
      Tag(p) ==
      if !p.isVideo && !p.isMetadata && !p.isAudio then Ok([])
      else match data
        case Err(e) => Err(e)
        case Ok(d) =>
          Ok([t] + BE(3, |d|) + BE(3, p.ts) + [p.ts / 0x100_0000] + [0, 0, 0] + d + BE(4, |d| + 11))
  {
    hide BE, Metadata.Reform, TagBytes;
    TagBytesAre(18, p.ts, if p.isMetadata then Metadata.Reform(p.data, Metadata.Del) else Err(Invalid));
    TagBytesAre(Type(p), p.ts, Ok(p.data));
  }

  lemma TagBytesAre(t: byte, ts: u32, d: Result<seq<byte>>)
    ensures d.Ok? ==>
              TagBytes(t, ts, d.value)
              == [t] + BE(3, |d.value|) + BE(3, ts) + [ts / 0x100_0000] + [0, 0, 0] + d.value + BE(4, |d.value| + 11)
  {
    assert BE(3, 0) == [0, 0, 0] by { UnBEDigits(0, 0, 0, 0); BEofUnBE([0, 0, 0]); }
    hide BE;
  }

  lemma BehindHeader(rest: seq<byte>)
    ensures ReadFile(FIRST_HEADER + rest) == ReadTags(rest)
  {
    var s := FIRST_HEADER + rest;
    hide ReadTags;
    assert s[..9] == FLV_HEADER && s[9..13] == [0, 0, 0, 0] && s[13..] == rest;
  }

  /**
   Media comes back as it was. Metadata comes back in its added form exactly when the command, if it is
   there, is followed by a name; so what publishers send with the command comes back unchanged.
   */
  lemma BackIs(p: Packet, name: seq<byte>)
    requires Readable(p) && Type(p) != 0
    requires !p.isVideo && p.isMetadata ==> Metadata.Named(p.data, name)
    ensures |Back(p)| == 1 && Back(p)[0].p.ts == p.ts && Back(p)[0].p.isVideo == p.isVideo
    ensures Back(p)[0].p.isMetadata == (!p.isVideo && p.isMetadata)
    ensures Back(p)[0].p.isAudio == (!p.isVideo && !p.isMetadata)
    ensures p.isVideo || !p.isMetadata ==>
              Back(p)[0].p.data == p.data && Ok(Back(p)[0].tag) ==
              match FlvTag.ParseTag(p.data, p.isVideo) case Ok(r) => Ok(r.tag) case Err(e) => Err(e)
    ensures
      !p.isVideo && p.isMetadata ==>
        var added := if name == Metadata.SET_DATA_FRAME then p.data else Metadata.SetFrame() + p.data;
        && Metadata.Reform(p.data, Metadata.Add) == Ok(added) && Back(p)[0].tag == FlvTag.Tag(0, 0, 0, 0, 0, 0)
        && (Back(p)[0].p.data == added <==> Metadata.Once(p.data, name))
  {
    if Type(p) == TAG_SCRIPT { Metadata.AddedForm(p.data, name); }
    hide Metadata.Reform, FlvTag.ParseTag, Metadata.Once, Metadata.Named;
  }

  // ---- the writer ----

  class Writer {
    var w: seq<byte>
    var inited: bool
    var closed: bool
    ghost var written: seq<Packet>

    /** The file so far: nothing before the first write, then the header and the tags written. */
    ghost predicate Valid()
      reads this
    { w == if inited then FIRST_HEADER + Tags(written) else [] }

    constructor ()
      ensures Valid() && !inited && !closed && written == []
    { w, inited, closed, written := [], false, false, []; }

    method Write(p: Packet) returns (r: Result<()>)
      requires Valid()
      modifies this
      ensures Valid() && closed == old(closed)
      ensures r.Ok? <==> !closed && Tag(p).Ok?
      ensures closed ==> w == old(w)
      ensures !closed ==> w == [0x46, 0x4c, 0x56, 1, 5, 0, 0, 0, 9, 0, 0, 0, 0] + Tags(written)
      ensures !closed ==> inited && written == (if old(inited) then old(written) else []) + [p]
    {
      if closed { return Err(Invalid); }
      if !inited {
        w := w + FIRST_HEADER;
        inited := true;
        written := [];
        EmptyUnit(FIRST_HEADER);
        EmptyUnit(w);
      }
      TagsSnoc(written, p);
      Assoc(FIRST_HEADER, Tags(written), if Tag(p).Ok? then Tag(p).value else []);
      EmptyUnit(w);
      written := written + [p];
      var typeID: byte, data := 0, p.data;
      if p.isVideo {
        typeID := TAG_VIDEO;
      } else if p.isMetadata {
        typeID := TAG_SCRIPT;
        var body := Metadata.MetaDataReform(p.data, Metadata.Del);
        if body.Err? { return Err(body.error); }
        data := body.value;
      } else if p.isAudio {
        typeID := TAG_AUDIO;
      } else {
        return Ok(());
      }
      WriteTag(typeID, p.ts, data);
      r := Ok(());
    }

    method WriteTag(typeID: byte, timestamp: u32, data: seq<byte>)
      modifies this`w
      ensures w == old(w) + TagBytes(typeID, timestamp, data)
    {
      ghost var start, h := w, HeaderBytes(typeID, |data|, timestamp);
      WriteHeader(typeID, |data|, timestamp);
      Assoc(start, h, data);
      Assoc(start, h + data, BE(4, |data| + HEADER_LEN));
      w := w + data;
      w := w + BE(4, |data| + HEADER_LEN);
    }

    method WriteHeader(typeID: byte, dataLen: nat, timestamp: u32)
      modifies this`w
      ensures w == old(w) + HeaderBytes(typeID, dataLen, timestamp)
    {
      Grouped(w, [typeID], BE(3, dataLen), BE(3, timestamp), [timestamp / 0x100_0000], BE(3, 0));
      Grouped([typeID], BE(3, dataLen), BE(3, timestamp), [timestamp / 0x100_0000], BE(3, 0), []);
      EmptyUnit(HeaderBytes(typeID, dataLen, timestamp));
      EmptyUnit(BE(3, 0));
      w := w + [typeID];
      w := w + BE(3, dataLen);
      w := w + BE(3, timestamp);
      w := w + [timestamp / 0x100_0000];
      w := w + BE(3, 0);
    }

    method Close() returns (r: Result<()>)
      modifies this`closed
      ensures closed && (r.Ok? <==> !old(closed))
    {
      if closed { return Err(Invalid); }
      closed := true;
      r := Ok(());
    }
  }

  lemma {:induction false} TagsSnoc(ps: seq<Packet>, p: Packet)
    ensures Tags(ps + [p]) == Tags(ps) + if Tag(p).Ok? then Tag(p).value else []
  {
    var w := if Tag(p).Ok? then Tag(p).value else [];
    if ps == [] { EmptyUnit(w); assert [p][1..] == []; } else {
      TailOfAppend(ps, [p]);
      TagsSnoc(ps[1..], p);
      Assoc(if Tag(ps[0]).Ok? then Tag(ps[0]).value else [], Tags(ps[1..]), w);
    }
  }

  // ---- the reader ----

  class Reader {
    var r: seq<byte>
    var inited: bool

    constructor (data: seq<byte>)
      ensures r == data && !inited
    { r, inited := data, false; }

    method Bytes(n: nat) returns (b: Result<seq<byte>>)
      modifies this`r
      ensures |r| <= |old(r)|
      ensures match Take(n, old(r))
              case Ok(p) => b == Ok(p.val) && r == p.rest
              case Err(e) => b == Err(e)
    {
      if n > |r| {
        r := [];
        return Err(Eof);
      }
      b := Ok(r[..n]);
      r := r[n..];
    }

    method Uint(n: nat) returns (v: Result<nat>)
      requires n <= 4
      modifies this`r
      ensures |r| <= |old(r)|
      ensures match TakeBE(n, old(r))
              case Ok(p) => v == Ok(p.val) && r == p.rest
              case Err(e) => v == Err(e)
    {
      var b := Bytes(n);
      v := if b.Ok? then Ok(UnBE(b.value)) else Err(b.error);
    }

    /** The file header, once. */
    method Init() returns (res: Result<()>)
      requires !inited
      modifies this
      ensures |r| <= |old(r)|
      ensures res.Ok? <==> inited
      ensures res.Ok? <==> |old(r)| >= 13 && old(r)[..13] == [0x46, 0x4c, 0x56, 1, 5, 0, 0, 0, 9, 0, 0, 0, 0]
      ensures res.Ok? ==> r == old(r)[13..]
    {
      ghost var s := r;
      var head := Bytes(9);
      if head.Err? { return Err(Eof); }
      assert s[..9] == head.value && s[9..] == r;
      if head.value != FLV_HEADER {
        assert |s| >= 13 ==> s[..13][..9] == s[..9] && FIRST_HEADER[..9] == FLV_HEADER;
        return Err(Invalid);
      }
      var first := Bytes(4);
      if first.Err? { return Err(Eof); }
      assert s[..13] == head.value + first.value && s[13..] == r && FIRST_HEADER == FLV_HEADER + [0, 0, 0, 0];
      if first.value != [0, 0, 0, 0] {
        assert s[..13][9..] == first.value && FIRST_HEADER[9..] == [0, 0, 0, 0];
        return Err(Invalid);
      }
      inited := true;
      res := Ok(());
    }

    method Read() returns (p: Result<Item>)
      modifies this
      ensures |r| <= |old(r)|
      ensures !old(inited) && (|old(r)| < 13 || old(r)[..13] != FIRST_HEADER) ==> p.Err?
      ensures
        old(inited) || (|old(r)| >= 13 && old(r)[..13] == FIRST_HEADER) ==>
          inited &&
          match ReadTag(if old(inited) then old(r) else old(r)[13..])
          case Ok(t) => p == Ok(t.val) && r == t.rest
          case Err(e) => p == Err(e)
    {
      if !inited {
        var init := Init();
        if init.Err? { return Err(init.error); }
      }
      p := ReadOne();
    }

    method ReadHeader() returns (h: Result<TagHeader>)
      modifies this`r
      ensures |r| <= |old(r)|
      ensures match TakeHeader(old(r))
              case Ok(p) => h == Ok(p.val) && r == p.rest
              case Err(e) => h == Err(e)
    {
      hide TakeBE;
      Pow256Values();
      var tagType := Uint(1);
      if tagType.Err? { return Err(Eof); }
      var dataSize := Uint(3);
      if dataSize.Err? { return Err(Eof); }
      var timestamp := Uint(3);
      if timestamp.Err? { return Err(Eof); }
      var timestampExtended := Uint(1);
      if timestampExtended.Err? { return Err(Eof); }
      var streamID := Uint(3);
      if streamID.Err? { return Err(Eof); }
      h := Ok(TagHeader(tagType.value, dataSize.value, timestampExtended.value * 0x100_0000 + timestamp.value));
    }

    method ReadOne() returns (p: Result<Item>)
      modifies this`r
      ensures |r| <= |old(r)|
      ensures match ReadTag(old(r))
              case Ok(t) => p == Ok(t.val) && r == t.rest
              case Err(e) => p == Err(e)
    {
      hide TakeHeader, TakeBE, Take, Finish;
      var h := ReadHeader();
      if h.Err? { return Err(h.error); }
      var data := Bytes(h.value.size);
      if data.Err? { return Err(Eof); }
      var preTagSize := Uint(4);
      if preTagSize.Err? { return Err(Eof); }
      if preTagSize.value != h.value.size + HEADER_LEN { return Err(Invalid); }
      p := Demux(h.value.t, h.value.ts, data.value);
    }

    method Demux(t: byte, ts: u32, data: seq<byte>) returns (p: Result<Item>)
      ensures p == Finish(t, ts, data)
    {
      if t == TAG_SCRIPT {
        var body := Metadata.MetaDataReform(data, Metadata.Add);
        if body.Err? { return Err(body.error); }
        return Ok(Item(OfType(t, ts, body.value), NO_TAG));
      }
      var tag := FlvTag.ParseTag(data, t == TAG_VIDEO);
      if tag.Err? { return Err(tag.error); }
      p := Ok(Item(OfType(t, ts, data), tag.value.tag));
    }
  }
}
