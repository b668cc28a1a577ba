/** The RTMP chunk format (RTMP 1.0, sections 5.3 and 5.4) as the reader and the writer use it. */
module ChunkSpec {
  import opened Bytes

  const EXTENDED := 0xffffff
  const ID_SET_CHUNK_SIZE := 1
  const ID_ACK := 3
  const ID_WINDOW_ACK_SIZE := 5

  datatype Message = Message(ts: u32, typeId: nat, streamId: u32, data: seq<byte>)

  /** A message together with the chunk stream it travels on. */
  datatype Delivery = Delivery(csid: nat, msg: Message)

  /** What the reader remembers of one chunk stream; `body` is the part of the payload received so far. */
  datatype StreamState = StreamState(
    csid: nat, format: nat, ts: u32, length: nat, typeId: nat, streamId: u32,
    delta: u32, exted: bool, remain: nat, body: seq<byte>)

  type Streams = map<nat, StreamState>

  function Fresh(csid: nat): StreamState
  { StreamState(csid, 0, 0, 0, 0, 0, 0, false, 0, []) }

  function Min(a: int, b: int): int
  { if a <= b then a else b }

  function MessageOf(c: StreamState): Message
  { Message(c.ts, c.typeId, c.streamId, c.body) }

  function Restart(c: StreamState): StreamState
  { c.(remain := c.length, body := []) }

  function Advance(ts: u32, d: u32): u32
  { (ts + d) % 0x1_0000_0000 }

  // ---- reading one chunk ----

  /** Ids 0 and 1 announce a longer id, but only while the record has not taken it over yet. */
  function ReadId(csid: nat, r: seq<byte>): (p: Result<Parsed<nat>>)
    ensures p.Ok? ==> |p.value.rest| <= |r|
  {
    if csid == 0 then var id :- TakeLE(1, r); Ok(Parsed(id.val + 64, id.rest))
    else if csid == 1 then var id :- TakeLE(2, r); Ok(Parsed(id.val + 64, id.rest))
    else Ok(Parsed(csid, r))
  }

  /** The 3-byte timestamp field, or the 4 bytes that follow the header when it is all ones. */
  function ReadExtended(field: nat, r: seq<byte>): (p: Result<Parsed<u32>>)
    requires field < 0x100_0000
    ensures p.Ok? ==> |p.value.rest| <= |r|
  {
    Pow256Values();
    if field == EXTENDED then var x :- TakeBE(4, r); Ok(Parsed(x.val, x.rest)) else Ok(Parsed(field, r))
  }

  datatype LengthAndType = LengthAndType(length: nat, typeId: nat)

  function TakeLengthAndType(r: seq<byte>): (p: Result<Parsed<LengthAndType>>)
    ensures p.Ok? ==> |p.value.rest| <= |r|
  {
    var l :- TakeBE(3, r);
    var ty :- TakeBE(1, l.rest);
    Ok(Parsed(LengthAndType(l.val, ty.val), ty.rest))
  }

  function ReadFullHeader(c: StreamState, r: seq<byte>): (p: Result<Parsed<StreamState>>)
    ensures p.Ok? ==> |p.value.rest| <= |r|
  {
    Pow256Values();
    var t :- TakeBE(3, r);
    var l :- TakeLengthAndType(t.rest);
    var id :- TakeLE(4, l.rest);
    var x :- ReadExtended(t.val, id.rest);
    Ok(Parsed(Restart(c.(format := 0, ts := x.val, length := l.val.length, typeId := l.val.typeId,
                         streamId := id.val, exted := t.val == EXTENDED)), x.rest))
  }

  function ReadLengthHeader(c: StreamState, r: seq<byte>): (p: Result<Parsed<StreamState>>)
    ensures p.Ok? ==> |p.value.rest| <= |r|
  {
    Pow256Values();
    var t :- TakeBE(3, r);
    var l :- TakeLengthAndType(t.rest);
    var x :- ReadExtended(t.val, l.rest);
    Ok(Parsed(Restart(c.(format := 1, ts := Advance(c.ts, x.val), length := l.val.length, typeId := l.val.typeId,
                         delta := x.val, exted := t.val == EXTENDED)), x.rest))
  }

  function ReadDeltaHeader(c: StreamState, r: seq<byte>): (p: Result<Parsed<StreamState>>)
    ensures p.Ok? ==> |p.value.rest| <= |r|
  {
    Pow256Values();
    var t :- TakeBE(3, r);
    var x :- ReadExtended(t.val, t.rest);
    Ok(Parsed(Restart(c.(format := 2, ts := Advance(c.ts, x.val),
                         delta := x.val, exted := t.val == EXTENDED)), x.rest))
  }

  /** No header: a new message repeats the last one, a message in flight goes on. */
  function ReadNoHeader(c: StreamState, r: seq<byte>): (p: Result<Parsed<StreamState>>)
    ensures p.Ok? ==> |p.value.rest| <= |r|
  {
    Pow256Values();
    if c.remain == 0 then
      var x: Parsed<u32> :- if c.exted && c.format <= 2 then ReadExtended(EXTENDED, r) else Ok(Parsed(c.delta, r));
      Ok(Parsed(Restart(
                  if c.format == 0 then (if c.exted then c.(ts := x.val) else c)
                  else if c.format <= 2 then c.(ts := Advance(c.ts, x.val))
                  else c), x.rest))
    else if c.exted then
      var x :- TakeBE(4, r);
      Ok(Parsed(c, if x.val == c.ts then x.rest else r))
    else Ok(Parsed(c, r))
  }

  function ReadHeader(c: StreamState, format: nat, r: seq<byte>): (p: Result<Parsed<StreamState>>)
    ensures p.Ok? ==> |p.value.rest| <= |r|
  {
    match format
    case 0 => ReadFullHeader(c, r)
    case 1 => ReadLengthHeader(c, r)
    case 2 => ReadDeltaHeader(c, r)
    case _ => ReadNoHeader(c, r)
  }

  datatype ChunkRead = ChunkRead(streams: Streams, key: nat, rest: seq<byte>)

  function ReadPayload(c: StreamState, chunkSize: nat, r: seq<byte>): (p: Result<Parsed<StreamState>>)
    ensures p.Ok? ==> |p.value.rest| <= |r|
  {
    var n := Min(c.remain, chunkSize);
    var d :- Take(n, r);
    Ok(Parsed(c.(body := c.body + d.val, remain := c.remain - n), d.rest))
  }

  /** A chunk after its first byte. */
  function ReadRest(c: StreamState, format: nat, chunkSize: nat, r: seq<byte>): (p: Result<Parsed<StreamState>>)
    ensures p.Ok? ==> |p.value.rest| <= |r|
  {
    var id :- ReadId(c.csid, r);
    var hd :- ReadHeader(c.(csid := id.val), format, id.rest);
    ReadPayload(hd.val, chunkSize, hd.rest)
  }

  function ReadChunk(streams: Streams, chunkSize: nat, input: seq<byte>): (p: Result<ChunkRead>)
    ensures p.Ok? ==> |p.value.rest| < |input| && p.value.key in p.value.streams
  {
    var h :- TakeBE(1, input);
    var format, key := h.val / 64, h.val % 64;
    var c := if key in streams then streams[key] else Fresh(key);
    if c.remain != 0 && format != 3 then Err(Invalid) else
    var b :- ReadRest(c, format, chunkSize, h.rest);
    Ok(ChunkRead(streams[key := b.val], key, b.rest))
  }

  // ---- reading messages ----

  /** `binary.BigEndian.Uint32` panics on fewer than four bytes. */
  predicate ControlOk(m: Message)
  { m.typeId in {ID_SET_CHUNK_SIZE, ID_WINDOW_ACK_SIZE} ==> |m.data| >= 4 }

  function ControlValue(m: Message): (v: u32)
    requires |m.data| >= 4
  { UnBEBound(m.data[..4]); Pow256Values(); UnBE(m.data[..4]) }

  /** The first four bytes of a body, most significant first. */
  function Announced(d: seq<byte>): nat
    requires |d| >= 4
  { 0x100_0000 * (d[0] as int) + 0x1_0000 * (d[1] as int) + 0x100 * (d[2] as int) + d[3] }

  lemma ControlValueIs(m: Message)
    requires |m.data| >= 4
    ensures ControlValue(m) == Announced(m.data)
  {
    var d := m.data;
    UnBEDigits(d[0], d[1], d[2], d[3]);
    assert d[..4] == [d[0], d[1], d[2], d[3]];
  }

  function SizeAfter(size: nat, m: Message): nat
    requires m.typeId == ID_SET_CHUNK_SIZE ==> |m.data| >= 4
  { if m.typeId == ID_SET_CHUNK_SIZE then ControlValue(m) else size }

  /** Chunks are read until one completes its message. */
  function ReadFull(streams: Streams, chunkSize: nat, input: seq<byte>): (p: Result<ChunkRead>)
    ensures p.Ok? ==> |p.value.rest| < |input| && p.value.key in p.value.streams
                      && p.value.streams[p.value.key].remain == 0
    decreases |input|
  {
    var c :- ReadChunk(streams, chunkSize, input);
    if c.streams[c.key].remain == 0 then Ok(c) else ReadFull(c.streams, chunkSize, c.rest)
  }

  lemma ReadFullStep(streams: Streams, chunkSize: nat, input: seq<byte>)
    ensures match ReadChunk(streams, chunkSize, input)
            case Err(_) => ReadFull(streams, chunkSize, input).Err?
            case Ok(c) => |c.rest| < |input| && ReadFull(streams, chunkSize, input)
                          == if c.streams[c.key].remain == 0 then Ok(c) else ReadFull(c.streams, chunkSize, c.rest)
  {}

  /** The payload received and the payload to come make up the announced length. */
  predicate WellSized(streams: Streams)
  { forall k | k in streams :: streams[k].length == |streams[k].body| + streams[k].remain }

  lemma {:induction false} ReadFullWellSized(streams: Streams, chunkSize: nat, input: seq<byte>)
    requires WellSized(streams)
    ensures
      match ReadFull(streams, chunkSize, input)
      case Err(_) => true
      case Ok(c) => WellSized(c.streams) && c.streams[c.key].length == |MessageOf(c.streams[c.key]).data|
    decreases |input|
  {
    var c := ReadChunk(streams, chunkSize, input);
    if c.Ok? {
      ReadChunkWellSized(streams, chunkSize, input);
      if c.value.streams[c.value.key].remain != 0 { ReadFullWellSized(c.value.streams, chunkSize, c.value.rest); }
    }
  }

  lemma ReadHeaderWellSized(c: StreamState, format: nat, r: seq<byte>)
    requires c.length == |c.body| + c.remain
    ensures ReadHeader(c, format, r).Ok? ==>
              var c' := ReadHeader(c, format, r).value.val; c'.length == |c'.body| + c'.remain
  {}

  lemma ReadChunkWellSized(streams: Streams, chunkSize: nat, input: seq<byte>)
    requires WellSized(streams)
    ensures ReadChunk(streams, chunkSize, input).Ok? ==> WellSized(ReadChunk(streams, chunkSize, input).value.streams)
  {
    var h := TakeBE(1, input);
    if h.Ok? {
      var format, key := h.value.val / 64, h.value.val % 64;
      var c := if key in streams then streams[key] else Fresh(key);
      var id := ReadId(c.csid, h.value.rest);
      if id.Ok? { ReadHeaderWellSized(c.(csid := id.value.val), format, id.value.rest); }
    }
  }

  /** Everything a peer gets out of an input by reading messages until a read fails. */
  function Receive(streams: Streams, chunkSize: nat, input: seq<byte>): seq<Delivery>
    decreases |input|
  {
    match ReadFull(streams, chunkSize, input)
    case Err(_) => []
    case Ok(c) =>
      var m := MessageOf(c.streams[c.key]);
      if !ControlOk(m) then []
      else [Delivery(c.streams[c.key].csid, m)] + Receive(c.streams, SizeAfter(chunkSize, m), c.rest)
  }

  // ---- writing ----

  function BasicHeader(format: nat, csid: nat): seq<byte>
    requires format < 4
  {
    if csid < 64 then [64 * format + csid]
    else if csid - 64 < 256 then [64 * format, csid - 64]
    else if csid - 64 < 65536 then [64 * format + 1, 64 * format + 1] + LE(2, csid - 64)
    else []
  }

  /** The 3-byte timestamp field of formats 0 to 2. */
  function StampField(ts: u32): nat
  { if ts > EXTENDED then EXTENDED else ts }

  function ExtendedThen(ts: u32, tail: seq<byte>): seq<byte>
  { if ts >= EXTENDED then BE(4, ts) + tail else tail }

  /** A chunk message header followed by `tail`. */
  function MessageHeaderThen(format: nat, ts: u32, length: nat, typeId: nat, streamId: u32, tail: seq<byte>): seq<byte>
  {
    var x := ExtendedThen(ts, tail);
    match format
    case 0 => BE(3, StampField(ts)) + (BE(3, length) + (BE(1, typeId) + (LE(4, streamId) + x)))
    case 1 => BE(3, StampField(ts)) + (BE(3, length) + (BE(1, typeId) + x))
    case 2 => BE(3, StampField(ts)) + x
    case _ => x
  }

  function ChunkHeader(format: nat, csid: nat, ts: u32, length: nat, typeId: nat, streamId: u32): seq<byte>
    requires format < 4
  { BasicHeader(format, csid) + MessageHeaderThen(format, ts, length, typeId, streamId, []) }
}
