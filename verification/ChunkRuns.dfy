/** Whole messages written by `Conn.Write`, runs of such writes, and the peer that reads them. */
module ChunkRuns {
  import opened Bytes
  import opened ChunkSpec
  import opened ChunkProtocol

  /** Audio always travels on stream 4, video and metadata on stream 6. */
  function WriteId(typeId: nat, csid: nat): nat
  { if typeId == 8 then 4 else if typeId in {9, 0x12, 0xf} then 6 else csid }

  /** The chunk of `m` that starts at payload offset `off`. */
  function ChunkAt(m: Message, csid: nat, size: nat, off: nat): seq<byte>
    requires off < |m.data|
  {
    ChunkHeader(if off == 0 then 0 else 3, csid, m.ts, |m.data|, m.typeId, m.streamId)
    + m.data[off..off + Min(size, |m.data| - off)]
  }

  /** The chunks of `m` from payload offset `off` on. */
  function ChunksFrom(m: Message, csid: nat, size: nat, off: nat): seq<byte>
    requires size > 0
    decreases |m.data| - off
  {
    if off >= |m.data| then [] else
      ChunkAt(m, csid, size, off) + ChunksFrom(m, csid, size, off + Min(size, |m.data| - off))
  }

  /** The chunk size `Conn.Write` uses for `d`: a Set Chunk Size message switches before it is written. */
  function SizeFor(size: nat, d: Delivery): nat
    requires d.msg.typeId == ID_SET_CHUNK_SIZE ==> |d.msg.data| >= 4
  { SizeAfter(size, d.msg) }

  /** What one write accepts without an error; the body of a Set Chunk Size message is four bytes (section 5.4.1). */
  predicate Writable(d: Delivery)
  {
    && 2 <= d.csid < 64 && |d.msg.data| <= 0xffffff && d.msg.typeId < 256 && ControlOk(d.msg)
    && (d.msg.typeId == ID_SET_CHUNK_SIZE ==> |d.msg.data| == 4 && ControlValue(d.msg) >= 1)
  }

  /** An announced chunk size must hold the announcement itself. */
  predicate Sendable(d: Delivery)
  { Writable(d) && (d.msg.typeId == ID_SET_CHUNK_SIZE ==> ControlValue(d.msg) >= 4) }

  /** The chunk stream a message is received on: 4 for audio, 6 for video and the two kinds of metadata. */
  function OnWire(d: Delivery): Delivery
  {
    var t := d.msg.typeId;
    Delivery(if t == 8 then 4 else if t == 9 || t == 15 || t == 18 then 6 else d.csid, d.msg)
  }

  function WriteBytes(size: nat, d: Delivery): seq<byte>
    requires (d.msg.typeId == ID_SET_CHUNK_SIZE ==> |d.msg.data| >= 4) && SizeFor(size, d) > 0
  { ChunksFrom(d.msg, WriteId(d.msg.typeId, d.csid), SizeFor(size, d), 0) }

  predicate WritableRun(ds: seq<Delivery>)
  { forall i | 0 <= i < |ds| :: Writable(ds[i]) }

  predicate SendableRun(ds: seq<Delivery>)
  { forall i | 0 <= i < |ds| :: Sendable(ds[i]) }

  function SizeAfterRun(size: nat, ds: seq<Delivery>): (r: nat)
    requires size >= 1 && WritableRun(ds)
    decreases |ds|
    ensures r >= 1 && (size >= 4 && SendableRun(ds) ==> r >= 4)
  { if ds == [] then size else SizeAfterRun(SizeFor(size, ds[0]), ds[1..]) }

  function WriteRun(size: nat, ds: seq<Delivery>): seq<byte>
    requires size >= 1 && WritableRun(ds)
    decreases |ds|
  { if ds == [] then [] else WriteBytes(size, ds[0]) + WriteRun(SizeFor(size, ds[0]), ds[1..]) }

  /** `writeChunk` writes nothing for an empty message. */
  function Kept(d: Delivery): seq<Delivery>
  { if d.msg.data == [] then [] else [OnWire(d)] }

  /** The messages that reach the wire. */
  function Written(ds: seq<Delivery>): seq<Delivery>
  { if ds == [] then [] else Kept(ds[0]) + Written(ds[1..]) }

  ghost predicate AtRest(s: Sender)
  { ValidSender(s) && s.pending == map[] }

  lemma ContinueStep(s: Sender, csid: nat, m: Message, off: nat)
    requires ValidSender(s) && csid in s.pending && s.pending[csid] == off > 0
    requires s.ctx[csid].last == m && s.ctx[csid].format == 0
    ensures off < |m.data| && ControlOk(m)
    ensures
      var s1, e := Next(s, Continue(csid)), off + Min(s.chunkSize, |m.data| - off);
      && Emit(s, Continue(csid)) == ChunkAt(m, csid, s.chunkSize, off)
      && Finished(s, Continue(csid)) == (if e == |m.data| then [Delivery(csid, m)] else [])
      && s1.ctx == s.ctx && s1.chunkSize == (if e == |m.data| then SizeAfter(s.chunkSize, m) else s.chunkSize)
      && s1.pending == if e == |m.data| then s.pending - {csid} else s.pending[csid := e]
  {}

  lemma NoSteps(s: Sender)
    requires ValidSender(s)
    ensures LegalRun(s, []) && Wire(s, []) == [] && Completed(s, []) == [] && Final(s, []) == s
  {}

  /** The chunks of a message in flight are the remaining steps of a sender that started it with format 0. */
  lemma {:induction false} ContinuesMessage(s: Sender, csid: nat, m: Message, off: nat)
    returns (steps: seq<Step>, s': Sender)
    requires ValidSender(s) && s.chunkSize > 0 && s.pending == map[csid := off] && off > 0
    requires s.ctx[csid].last == m && s.ctx[csid].format == 0
    ensures LegalRun(s, steps) && Wire(s, steps) == ChunksFrom(m, csid, s.chunkSize, off)
    ensures Completed(s, steps) == [Delivery(csid, m)]
    ensures s' == Final(s, steps) && AtRest(s') && ControlOk(m) && s'.chunkSize == SizeAfter(s.chunkSize, m)
    decreases |m.data| - off
  {
    ContinueStep(s, csid, m, off);
    var st := Continue(csid);
    var e := off + Min(s.chunkSize, |m.data| - off);
    assert ChunksFrom(m, csid, s.chunkSize, off)
        == ChunkAt(m, csid, s.chunkSize, off) + ChunksFrom(m, csid, s.chunkSize, e);
    assert e == |m.data| ==> ChunksFrom(m, csid, s.chunkSize, e) == [];
    assert e < |m.data| ==> csid in s.ctx;
    hide Next, ValidSender, Emit, Finished, ChunksFrom, ChunkAt, ControlOk, Final, Completed, Wire;
    var tail: seq<Step> := [];
    s' := Next(s, st);
    if e < |m.data| {
      tail, s' := ContinuesMessage(s', csid, m, e);
    } else {
      NoSteps(s');
    }
    steps := [st] + tail;
    ConsRun(s, st, tail);
    EmptyUnit([Delivery(csid, m)]);
  }

  lemma StartStep(s: Sender, csid: nat, m: Message)
    requires AtRest(s) && s.chunkSize > 0 && m.data != []
    requires 2 <= csid < 64 && |m.data| <= 0xffffff && m.typeId < 256 && ControlOk(m)
    ensures Legal(s, Start(csid, 0, m))
    ensures
      var s1, e := Next(s, Start(csid, 0, m)), Min(s.chunkSize, |m.data|);
      && Emit(s, Start(csid, 0, m)) == ChunkAt(m, csid, s.chunkSize, 0)
      && Finished(s, Start(csid, 0, m)) == (if e == |m.data| then [Delivery(csid, m)] else [])
      && s1.ctx == s.ctx[csid := Context(m, 0, 0)]
      && s1.chunkSize == (if e == |m.data| then SizeAfter(s.chunkSize, m) else s.chunkSize)
      && s1.pending == if e == |m.data| then map[] else map[csid := e]
  { NextParts(s, Start(csid, 0, m)); }

  lemma WritesMessage(s: Sender, csid: nat, m: Message) returns (steps: seq<Step>, s': Sender)
    requires AtRest(s) && s.chunkSize > 0 && m.data != []
    requires 2 <= csid < 64 && |m.data| <= 0xffffff && m.typeId < 256 && ControlOk(m)
    ensures LegalRun(s, steps) && Wire(s, steps) == ChunksFrom(m, csid, s.chunkSize, 0)
    ensures Completed(s, steps) == [Delivery(csid, m)]
    ensures s' == Final(s, steps) && AtRest(s') && s'.chunkSize == SizeAfter(s.chunkSize, m)
  {
    StartStep(s, csid, m);
    var st := Start(csid, 0, m);
    var e := Min(s.chunkSize, |m.data|);
    assert ChunksFrom(m, csid, s.chunkSize, 0)
        == ChunkAt(m, csid, s.chunkSize, 0) + ChunksFrom(m, csid, s.chunkSize, e);
    assert e == |m.data| ==> ChunksFrom(m, csid, s.chunkSize, e) == [];
    hide Next, Legal, ValidSender, Emit, Finished, ChunksFrom, ChunkAt, ControlOk, Final, Completed, Wire;
    var tail: seq<Step> := [];
    s' := Next(s, st);
    if e < |m.data| {
      tail, s' := ContinuesMessage(s', csid, m, e);
    } else {
      NoSteps(s');
    }
    steps := [st] + tail;
    ConsRun(s, st, tail);
    EmptyUnit([Delivery(csid, m)]);
  }

  lemma OneChunk(m: Message, csid: nat, size: nat, size': nat)
    requires 0 < |m.data| <= size && |m.data| <= size'
    ensures ChunksFrom(m, csid, size, 0) == ChunksFrom(m, csid, size', 0)
  {}

  /** One `Conn.Write` is one message for the peer, and leaves both sides with the same chunk size. */
  lemma ReceivesWrite(s: Sender, d: Delivery, streams: Streams, rest: seq<byte>) returns (s': Sender, streams': Streams)
    requires AtRest(s) && s.chunkSize >= 4 && Agrees(s, streams, s.chunkSize) && Sendable(d)
    ensures AtRest(s') && s'.chunkSize == SizeFor(s.chunkSize, d) && Agrees(s', streams', s'.chunkSize)
    ensures Receive(streams, s.chunkSize, WriteBytes(s.chunkSize, d) + rest)
         == Kept(d) + Receive(streams', s'.chunkSize, rest)
  {
    hide *;
    if d.msg.data == [] {
      s', streams' := s, streams;
      EmptyWrite(s.chunkSize, d);
      EmptyUnit(rest);
      EmptyUnit(Receive(streams, s.chunkSize, rest));
    } else {
      var steps;
      steps, s' := SendsWrite(s, d);
      streams' := Reassembles(s, steps, streams, rest);
    }
  }

  lemma EmptyWrite(size: nat, d: Delivery)
    requires Sendable(d) && d.msg.data == [] && size >= 4
    ensures SizeFor(size, d) == size && WriteBytes(size, d) == [] && Kept(d) == []
  {}

  lemma SendsWrite(s: Sender, d: Delivery) returns (steps: seq<Step>, s': Sender)
    requires AtRest(s) && s.chunkSize >= 4 && Sendable(d) && d.msg.data != []
    ensures ValidSender(s) && LegalRun(s, steps) && Wire(s, steps) == WriteBytes(s.chunkSize, d)
    ensures Completed(s, steps) == Kept(d)
    ensures s' == Final(s, steps) && AtRest(s') && s'.chunkSize == SizeFor(s.chunkSize, d)
  {
    steps, s' := WritesMessage(s, OnWire(d).csid, d.msg);
    if d.msg.typeId == ID_SET_CHUNK_SIZE { OneChunk(d.msg, d.csid, s.chunkSize, SizeFor(s.chunkSize, d)); }
  }

  /**
   Any run of writes is received as exactly the messages written, and then the chunk sizes agree
   again, whatever input follows.
   */
  lemma {:induction false} ReceivesRun(s: Sender, ds: seq<Delivery>, streams: Streams, rest: seq<byte>)
    returns (s': Sender, streams': Streams)
    requires AtRest(s) && s.chunkSize >= 4 && Agrees(s, streams, s.chunkSize) && SendableRun(ds)
    ensures AtRest(s') && s'.chunkSize == SizeAfterRun(s.chunkSize, ds) && Agrees(s', streams', s'.chunkSize)
    ensures Receive(streams, s.chunkSize, WriteRun(s.chunkSize, ds) + rest)
         == Written(ds) + Receive(streams', SizeAfterRun(s.chunkSize, ds), rest)
    decreases |ds|
  {
    if ds == [] {
      s', streams' := s, streams;
      EmptyUnit(rest);
    } else {
      var size1 := SizeFor(s.chunkSize, ds[0]);
      var s1, streams1 := ReceivesWrite(s, ds[0], streams, WriteRun(size1, ds[1..]) + rest);
      s', streams' := ReceivesRun(s1, ds[1..], streams1, rest);
      Assoc(WriteBytes(s.chunkSize, ds[0]), WriteRun(size1, ds[1..]), rest);
      Assoc(Kept(ds[0]), Written(ds[1..]), Receive(streams', s'.chunkSize, rest));
    }
  }

  /** From fresh connections (chunk size 128 on both sides). */
  lemma PeerReceivesRun(ds: seq<Delivery>)
    requires SendableRun(ds)
    ensures Receive(map[], 128, WriteRun(128, ds)) == Written(ds)
  {
    var s, streams := ReceivesRun(NewSender, ds, map[], []);
    EmptyUnit(WriteRun(128, ds));
    EmptyUnit(Written(ds));
    assert Receive(streams, s.chunkSize, []) == [];
  }

  // ---- when a Set Chunk Size message survives ----

  /** The peer reads `d` next. */
  predicate ReadsNext(streams: Streams, chunkSize: nat, input: seq<byte>, d: Delivery)
  {
    match ReadFull(streams, chunkSize, input)
    case Err(_) => false
    case Ok(c) => Delivery(c.streams[c.key].csid, MessageOf(c.streams[c.key])) == d
  }

  function SetChunkSize(ts: u32, csid: nat, v: u32): Delivery
  { Delivery(csid, Message(ts, 1, 0, BE(4, v))) }

  /** After the announcement of a size from 4 on, writer and peer use that size. */
  lemma AnnouncedSize(s: Sender, v: u32, streams: Streams, rest: seq<byte>) returns (s': Sender, streams': Streams)
    requires AtRest(s) && s.chunkSize >= 4 && Agrees(s, streams, s.chunkSize) && v >= 4
    ensures Writable(SetChunkSize(0, 2, v)) && AtRest(s') && s'.chunkSize == v && Agrees(s', streams', v)
    ensures Receive(streams, s.chunkSize, WriteBytes(s.chunkSize, SetChunkSize(0, 2, v)) + rest)
         == [SetChunkSize(0, 2, v)] + Receive(streams', v, rest)
  {
    ControlValueOf(v);
    s', streams' := ReceivesWrite(s, SetChunkSize(0, 2, v), streams, rest);
  }

  lemma ControlValueOf(v: u32)
    ensures ControlValue(SetChunkSize(0, 2, v).msg) == v
  {
    Pow256Values();
    TakeAll(BE(4, v));
    UnBEofBE(4, v);
    ModUnique(v, Pow256(4), 0, v);
  }

  /** The wire form of a payload whose first chunk holds `v` bytes. */
  lemma FirstChunkThen(m: Message, csid: nat, v: nat, rest: seq<byte>)
    requires 2 <= csid < 64 && 0 < v < |m.data|
    ensures ChunksFrom(m, csid, v, 0) + rest
         == [csid] + MessageHeaderThen(0, m.ts, |m.data|, m.typeId, m.streamId,
                                       m.data[0..v] + (ChunksFrom(m, csid, v, v) + rest))
  {
    var h := MessageHeaderThen(0, m.ts, |m.data|, m.typeId, m.streamId, []);
    var d, more := m.data[0..v], ChunksFrom(m, csid, v, v);
    assert ChunksFrom(m, csid, v, 0) == (([csid] + h) + d) + more by {
      hide MessageHeaderThen;
      assert ChunkHeader(0, csid, m.ts, |m.data|, m.typeId, m.streamId) == [csid] + h;
      hide ChunkHeader;
    }
    hide *;
    HeaderThen(0, m.ts, |m.data|, m.typeId, m.streamId, d + (more + rest));
    Regroup([csid] + h, d, more, rest);
    Assoc([csid], h, d + (more + rest));
  }

  /** The peer takes up to `size` bytes after the first header, whatever they are. */
  lemma ReadsFirstChunk(streams: Streams, size: nat, csid: nat, c: StreamState, m: Message, r2: seq<byte>)
    requires 2 <= csid < 64 && 0 < |m.data| <= size && |m.data| <= 0xffffff && |m.data| <= |r2| && m.typeId < 256
    requires c == (if csid in streams then streams[csid] else Fresh(csid)) && c.csid == csid && c.remain == 0
    ensures
      var r := ReadFull(streams, size, [csid] + MessageHeaderThen(0, m.ts, |m.data|, m.typeId, m.streamId, r2));
      r.Ok? && MessageOf(r.value.streams[r.value.key]).data == r2[..|m.data|]
  {
    var r1 := MessageHeaderThen(0, m.ts, |m.data|, m.typeId, m.streamId, r2);
    ReadsExplicitHeader(c, 0, m.ts, |m.data|, m.typeId, m.streamId, r2);
    var c1 := ReadHeader(c, 0, r1).value.val;
    var c2 := c1.(body := [] + r2[..|m.data|], remain := 0);
    assert ReadPayload(c1, size, r2) == Ok(Parsed(c2, r2[|m.data|..]));
    EmptyUnit(r2[..|m.data|]);
    ReadsWholeMessage(streams, size, csid, c, r1, r2, r2[|m.data|..], c1, c2);
  }

  lemma ReadsWholeMessage(streams: Streams, size: nat, csid: nat, c: StreamState, r1: seq<byte>, r2: seq<byte>,
                          r3: seq<byte>, c1: StreamState, c2: StreamState)
    requires 2 <= csid < 64
    requires c == (if csid in streams then streams[csid] else Fresh(csid)) && c.csid == csid && c.remain == 0
    requires ReadHeader(c, 0, r1) == Ok(Parsed(c1, r2)) && ReadPayload(c1, size, r2) == Ok(Parsed(c2, r3))
             && c2.remain == 0
    ensures ReadFull(streams, size, [csid] + r1) == Ok(ChunkRead(streams[csid := c2], csid, r3))
  {
    TakesByte(csid, r1);
    ChunkFromParts(streams, size, [csid] + r1, 0, csid, r1, r2, r3, c1, c2);
  }

  /** A size below 4 splits its own announcement, whose first chunk the peer takes for four payload bytes. */
  lemma SmallSizeGarbles(s: Sender, d: Delivery, streams: Streams, rest: seq<byte>)
    requires AtRest(s) && s.chunkSize >= 4 && Agrees(s, streams, s.chunkSize) && Writable(d) && !Sendable(d)
    ensures !ReadsNext(streams, s.chunkSize, WriteBytes(s.chunkSize, d) + rest, OnWire(d))
  {
    var m, csid, v := d.msg, d.csid, ControlValue(d.msg);
    var c := StreamBefore(s, Start(csid, 0, m), streams, s.chunkSize);
    var r2 := m.data[0..v] + (ChunksFrom(m, csid, v, v) + rest);
    SecondChunkByte(m, csid, v);
    SmallDigits(m.data);
    FirstChunkThen(m, csid, v, rest);
    assert r2[..4][v] == 192 + csid;
    assert WriteBytes(s.chunkSize, d) == ChunksFrom(m, csid, v, 0);
    ReadsFirstChunk(streams, s.chunkSize, csid, c, m, r2);
  }

  lemma SmallDigits(b: seq<byte>)
    requires |b| == 4 && UnBE(b[..4]) < 4
    ensures b[1] < 4 && b[2] < 4 && b[3] < 4
  {
    assert b[..4][..3] == b[..3] && b[..3][..2] == b[..2];
    assert UnBE(b[..4]) == UnBE(b[..3]) * 256 + b[3] && UnBE(b[..3]) == UnBE(b[..2]) * 256 + b[2];
    assert UnBE(b[..2]) == UnBE(b[..1]) * 256 + b[1] by { assert b[..2][..1] == b[..1]; }
  }

  lemma SecondChunkByte(m: Message, csid: nat, v: nat)
    requires |m.data| == 4 && 1 <= v < 4 && 2 <= csid < 64
    ensures |ChunksFrom(m, csid, v, v)| + v >= 4 && ChunksFrom(m, csid, v, v) != []
            && ChunksFrom(m, csid, v, v)[0] == 192 + csid
  {
    var more := ChunksFrom(m, csid, v, v);
    var e := v + Min(v, 4 - v);
    assert more == ChunkAt(m, csid, v, v) + ChunksFrom(m, csid, v, e);
    assert |ChunkAt(m, csid, v, v)| >= 1 + Min(v, 4 - v);
    if v == 1 { assert |ChunksFrom(m, csid, v, e)| >= |ChunkAt(m, csid, v, e)| >= 2; }
  }

  /** The peer reads a Set Chunk Size message exactly when the announced size is at least 4. */
  lemma SetChunkSizeExact(s: Sender, d: Delivery, streams: Streams, rest: seq<byte>)
    requires AtRest(s) && s.chunkSize >= 4 && Agrees(s, streams, s.chunkSize)
    requires Writable(d) && d.msg.typeId == ID_SET_CHUNK_SIZE
    ensures ReadsNext(streams, s.chunkSize, WriteBytes(s.chunkSize, d) + rest, d) <==> ControlValue(d.msg) >= 4
  {
    if !Sendable(d) {
      SmallSizeGarbles(s, d, streams, rest);
    } else {
      OneChunk(d.msg, d.csid, s.chunkSize, SizeFor(s.chunkSize, d));
      var st := Start(d.csid, 0, d.msg);
      assert WriteBytes(s.chunkSize, d) == Emit(s, st) by { EmptyUnit(Emit(s, st)); }
      var streams' := ReadsChunk(s, st, streams, s.chunkSize, rest);
    }
  }

  lemma HeadOf<T>(x: T, s: seq<T>)
    ensures [x] <= s ==> s != [] && s[0] == x
  { if [x] <= s { assert s[0] == [x][0]; } }

  lemma FirstReceived(streams: Streams, chunkSize: nat, input: seq<byte>, d: Delivery)
    requires !ReadsNext(streams, chunkSize, input, d)
    ensures !([d] <= Receive(streams, chunkSize, input))
  {
    HeadOf(d, Receive(streams, chunkSize, input));
    hide ReadFull;
  }

  lemma PrefixBehind<T>(a: seq<T>, b: seq<T>, c: seq<T>)
    ensures a + b <= a + c <==> b <= c
  {
    if a + b <= a + c {
      assert b == (a + b)[|a|..] && c == (a + c)[|a|..];
      forall i | 0 <= i < |b| ensures b[i] == c[i] { assert (a + b)[|a| + i] == (a + c)[|a| + i]; }
    }
  }

  lemma HeadBefore<T>(x: T, b: seq<T>, c: seq<T>)
    requires [x] + b <= c
    ensures [x] <= c
  {}

  /**
   The messages of any run of writes reach the peer, in order and before anything that follows, exactly
   when no chunk size below 4 is announced.
   */
  lemma {:induction false} RunExact(s: Sender, ds: seq<Delivery>, streams: Streams, rest: seq<byte>)
    requires AtRest(s) && s.chunkSize >= 4 && Agrees(s, streams, s.chunkSize) && WritableRun(ds)
    ensures Written(ds) <= Receive(streams, s.chunkSize, WriteRun(s.chunkSize, ds) + rest) <==> SendableRun(ds)
    decreases |ds|
  {
    if ds != [] {
      var d, size1 := ds[0], SizeFor(s.chunkSize, ds[0]);
      var more := WriteRun(size1, ds[1..]) + rest;
      Assoc(WriteBytes(s.chunkSize, d), WriteRun(size1, ds[1..]), rest);
      assert SendableRun(ds) <==> Sendable(d) && SendableRun(ds[1..]);
      if Sendable(d) {
        var s1, streams1 := ReceivesWrite(s, d, streams, more);
        RunExact(s1, ds[1..], streams1, rest);
        PrefixBehind(Kept(d), Written(ds[1..]), Receive(streams1, size1, more));
      } else {
        SmallSizeGarbles(s, d, streams, more);
        FirstReceived(streams, s.chunkSize, WriteBytes(s.chunkSize, d) + more, OnWire(d));
        hide Receive, WriteRun, WriteBytes, Sendable, SizeFor;
        if Written(ds) <= Receive(streams, s.chunkSize, WriteBytes(s.chunkSize, d) + more) {
          HeadBefore(OnWire(d), Written(ds[1..]), Receive(streams, s.chunkSize, WriteBytes(s.chunkSize, d) + more));
        }
      }
    }
  }

  /** A control message is one chunk: a full header on stream 2 with a length of 4 and its type, then its value. */
  lemma ControlOnWire(id: byte, value: u32, size: nat)
    requires size >= 4
    ensures ChunksFrom(Message(0, id, 0, BE(4, value)), 2, size, 0)
         == [2] + ([0, 0, 0] + ([0, 0, 4] + ([id] + [0, 0, 0, 0]))) + BE(4, value)
  {
    hide *;
    ControlHeader(id);
    SingleChunk(Message(0, id, 0, BE(4, value)), size);
  }

  lemma ControlHeader(id: byte)
    ensures ChunkHeader(0, 2, 0, 4, id, 0) == [2] + ([0, 0, 0] + ([0, 0, 4] + ([id] + [0, 0, 0, 0])))
  {
    hide *;
    ControlDigits();
    HeaderLayout(0, 2, 0, 4, id, 0);
    EmptyUnit([0, 0, 0, 0 as byte]);
  }

  lemma ControlDigits()
    ensures BE(3, 0) == [0, 0, 0] && BE(3, 4) == [0, 0, 4] && LE(4, 0) == [0, 0, 0, 0]
  {
    UnBEDigits(0, 0, 0, 0);
    UnBEDigits(0, 0, 4, 0);
    BEofUnBE([0, 0, 0]);
    BEofUnBE([0, 0, 4]);
    assert LE(3, 0) == [0, 0, 0] by { assert LE(2, 0) == [0, 0]; }
    hide BE, UnBE;
  }

  lemma SingleChunk(m: Message, size: nat)
    requires 0 < |m.data| <= size
    ensures ChunksFrom(m, 2, size, 0) == ChunkHeader(0, 2, m.ts, |m.data|, m.typeId, m.streamId) + m.data
  {
    hide ChunkHeader;
    TakeAll(m.data);
    EmptyUnit(ChunkAt(m, 2, size, 0));
    assert ChunksFrom(m, 2, size, |m.data|) == [];
  }
}
