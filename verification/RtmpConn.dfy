/** `ChunkStream` and `Conn` of `protocol/rtmp/core`, proved against the chunk format. */
module RtmpConn {
  import opened Bytes
  import opened ChunkSpec
  import opened ChunkRuns
  import opened Acknowledgement
  import opened ReadWriters

  class ChunkStream {
    var format: nat
    var csid: nat
    var timestamp: u32
    var length: nat
    var typeId: nat
    var streamId: u32
    var timeDelta: u32
    var exted: bool
    var index: nat
    var remain: nat
    var got: bool
    var tmpFormat: nat
    var data: seq<byte>

    ghost predicate Valid()
      reads `index, `remain, `data, `got
    { index + remain == |data| && (got ==> remain == 0) }

    /** What the reader knows of this stream; the payload received so far is `data[..index]`. */
    ghost function State(): StreamState
      requires Valid()
      reads this
    { StreamState(csid, format, timestamp, length, typeId, streamId, timeDelta, exted, remain, data[..index]) }

    /** The message a writer holds in this record. */
    ghost function Outgoing(): Message
      reads `timestamp, `typeId, `streamId, `data
    { Message(timestamp, typeId, streamId, data) }

    constructor (csid: nat)
      ensures Valid() && State() == Fresh(csid) && !got
    {
      this.csid := csid;
      format, timestamp, length, typeId, streamId, timeDelta := 0, 0, 0, 0, 0, 0;
      exted, index, remain, got, tmpFormat := false, 0, 0, false, 0;
      data := [];
    }

    constructor Filled(csid: nat, typeId: nat, streamId: u32, timestamp: u32, data: seq<byte>)
      ensures this.csid == csid && this.data == data && Outgoing() == Message(timestamp, typeId, streamId, data)
      ensures length == |data| && format == 0
    {
      this.csid, this.typeId, this.streamId, this.timestamp, this.data := csid, typeId, streamId, timestamp, data;
      length, index, remain := |data|, 0, |data|;
      format, timeDelta, exted, got, tmpFormat := 0, 0, false, false, 0;
    }

    /** A message is reported full only when its whole payload has been received. */
    method Full() returns (b: bool)
      requires Valid()
      ensures b == got
      ensures b ==> State().remain == 0 && index == |data| && State().body == data
    { b := got; }

    /** The fields of `c` that a header may keep. */
    ghost predicate Before(c: StreamState)
      reads `csid, `timestamp, `length, `typeId, `streamId, `timeDelta
    {
      && c.csid == csid && c.ts == timestamp && c.length == length && c.typeId == typeId && c.streamId == streamId
      && c.delta == timeDelta
    }

    /** The state in which a new message begins. */
    ghost function Restarted(): StreamState
      reads `csid, `format, `timestamp, `length, `typeId, `streamId, `timeDelta, `exted
    { StreamState(csid, format, timestamp, length, typeId, streamId, timeDelta, exted, length, []) }

    method Init()
      modifies this
      ensures Valid() && !got && tmpFormat == old(tmpFormat) && State() == old(Restarted())
    {
      got := false;
      index := 0;
      remain := length;
      data := seq(length, _ => 0);
    }

    /** The extended timestamp that follows a header whose 3-byte field is all ones. */
    method ReadStamp(rw: ReadWriter, field: u32) returns (r: Result<u32>)
      requires field < 0x100_0000
      modifies this`exted, rw`input
      ensures match ReadExtended(field, old(rw.input))
              case Ok(p) => r == Ok(p.val) && rw.input == p.rest && exted == (field == EXTENDED)
              case Err(_) => r.Err?
    {
      if field == EXTENDED {
        r := rw.ReadUintBE(4);
        if r.Err? { return; }
        exted := true;
      } else {
        exted := false;
        r := Ok(field);
      }
    }

    method ReadLengthAndType(rw: ReadWriter) returns (r: Result<()>)
      modifies this`length, this`typeId, rw`input
      ensures match TakeLengthAndType(old(rw.input))
              case Ok(p) => r.Ok? && length == p.val.length && typeId == p.val.typeId && rw.input == p.rest
              case Err(_) => r.Err?
    {
      var l := rw.ReadUintBE(3);
      if l.Err? { return Err(l.error); }
      length := l.value;
      var ty := rw.ReadUintBE(1);
      if ty.Err? { return Err(ty.error); }
      typeId := ty.value;
      r := Ok(());
    }

    /** The fields of a format 0 header; `c` is the state before it. */
    method ReadFullFields(rw: ReadWriter, ghost c: StreamState) returns (r: Result<()>)
      requires Before(c)
      modifies this`format, this`timestamp, this`length, this`typeId, this`streamId, this`exted, rw`input
      ensures match ChunkSpec.ReadFullHeader(c, old(rw.input))
              case Ok(p) => r.Ok? && p.val == Restarted() && rw.input == p.rest
              case Err(_) => r.Err?
    {
      Pow256Values();
      hide TakeBE, TakeLE, Pow256, ReadExtended, TakeLengthAndType;
      format := 0;
      var t := rw.ReadUintBE(3);
      if t.Err? { return Err(t.error); }
      timestamp := t.value;
      var l := ReadLengthAndType(rw);
      if l.Err? { return Err(l.error); }
      var id := rw.ReadUintLE(4);
      if id.Err? { return Err(id.error); }
      streamId := id.value;
      var x := ReadStamp(rw, timestamp);
      if x.Err? { return Err(x.error); }
      timestamp := x.value;
      r := Ok(());
    }

    method ReadFullHeader(rw: ReadWriter) returns (r: Result<()>)
      requires Valid()
      modifies this, rw`input
      ensures Valid()
      ensures match ChunkSpec.ReadFullHeader(old(State()), old(rw.input))
              case Ok(p) => r.Ok? && State() == p.val && rw.input == p.rest && !got
              case Err(_) => r.Err?
    {
      assert Before(State());
      hide State, Before, ChunkSpec.ReadFullHeader;
      r := ReadFullFields(rw, State());
      if r.Ok? { Init(); }
    }

    /** The fields of a format 1 header; `c` is the state before it. */
    method ReadLengthFields(rw: ReadWriter, ghost c: StreamState) returns (r: Result<()>)
      requires Before(c)
      modifies this`format, this`timestamp, this`length, this`typeId, this`timeDelta, this`exted, rw`input
      ensures match ChunkSpec.ReadLengthHeader(c, old(rw.input))
              case Ok(p) => r.Ok? && p.val == Restarted() && rw.input == p.rest
              case Err(_) => r.Err?
    {
      Pow256Values();
      hide TakeBE, TakeLE, Pow256, ReadExtended, TakeLengthAndType;
      format := 1;
      var t := rw.ReadUintBE(3);
      if t.Err? { return Err(t.error); }
      var l := ReadLengthAndType(rw);
      if l.Err? { return Err(l.error); }
      var x := ReadStamp(rw, t.value);
      if x.Err? { return Err(x.error); }
      timeDelta := x.value;
      timestamp := (timestamp + x.value) % 0x1_0000_0000;
      r := Ok(());
    }

    method ReadLengthHeader(rw: ReadWriter) returns (r: Result<()>)
      requires Valid()
      modifies this, rw`input
      ensures Valid()
      ensures match ChunkSpec.ReadLengthHeader(old(State()), old(rw.input))
              case Ok(p) => r.Ok? && State() == p.val && rw.input == p.rest && !got
              case Err(_) => r.Err?
    {
      assert Before(State());
      hide State, Before, ChunkSpec.ReadLengthHeader;
      r := ReadLengthFields(rw, State());
      if r.Ok? { Init(); }
    }

    /** The fields of a format 2 header; `c` is the state before it. */
    method ReadDeltaFields(rw: ReadWriter, ghost c: StreamState) returns (r: Result<()>)
      requires Before(c)
      modifies this`format, this`timestamp, this`timeDelta, this`exted, rw`input
      ensures match ChunkSpec.ReadDeltaHeader(c, old(rw.input))
              case Ok(p) => r.Ok? && p.val == Restarted() && rw.input == p.rest
              case Err(_) => r.Err?
    {
      Pow256Values();
      hide TakeBE, TakeLE, Pow256, ReadExtended, TakeLengthAndType;
      format := 2;
      var t := rw.ReadUintBE(3);
      if t.Err? { return Err(t.error); }
      var x := ReadStamp(rw, t.value);
      if x.Err? { return Err(x.error); }
      timeDelta := x.value;
      timestamp := (timestamp + x.value) % 0x1_0000_0000;
      r := Ok(());
    }

    method ReadDeltaHeader(rw: ReadWriter) returns (r: Result<()>)
      requires Valid()
      modifies this, rw`input
      ensures Valid()
      ensures match ChunkSpec.ReadDeltaHeader(old(State()), old(rw.input))
              case Ok(p) => r.Ok? && State() == p.val && rw.input == p.rest && !got
              case Err(_) => r.Err?
    {
      assert Before(State());
      hide State, Before, ChunkSpec.ReadDeltaHeader;
      r := ReadDeltaFields(rw, State());
      if r.Ok? { Init(); }
    }

    method ReadNoHeader(rw: ReadWriter) returns (r: Result<()>)
      requires Valid()
      modifies this, rw`input
      ensures Valid()
      ensures match ChunkSpec.ReadNoHeader(old(State()), old(rw.input))
              case Ok(p) => r.Ok? && State() == p.val && rw.input == p.rest && !got
              case Err(_) => r.Err?
    {
      Pow256Values();
      if remain == 0 {
        match format {
          case 0 =>
            if exted {
              var x := rw.ReadUintBE(4);
              if x.Err? { return Err(x.error); }
              timestamp := x.value;
            }
          case 1 | 2 =>
            var d := timeDelta;
            if exted {
              var x := rw.ReadUintBE(4);
              if x.Err? { return Err(x.error); }
              d := x.value;
            }
            timestamp := (timestamp + d) % 0x1_0000_0000;
          case _ =>
        }
        Init();
      } else if exted {
        var b := rw.Peek(4);
        if b.Err? { return Err(b.error); }
        if UnBE(b.value) == timestamp {
          rw.Discard(4);
        }
      }
      r := Ok(());
    }

    /** The part of the payload that one chunk carries. */
    method ReadBody(rw: ReadWriter, chunkSize: nat) returns (r: Result<()>)
      requires Valid() && !got
      modifies this, rw`input
      ensures Valid()
      ensures match ReadPayload(old(State()), chunkSize, old(rw.input))
              case Ok(p) => r.Ok? && State() == p.val && rw.input == p.rest && (got <==> remain == 0)
              case Err(_) => r.Err?
    {
      var size := remain;
      if size > chunkSize { size := chunkSize; }
      var p := rw.Read(size);
      if p.Err? { return Err(p.error); }
      data := data[..index] + p.value + data[index + size..];
      assert data[..index + size] == old(data[..index]) + p.value;
      index := index + size;
      remain := remain - size;
      if remain == 0 { got := true; }
      r := Ok(());
    }

    method ReadChunkHeader(rw: ReadWriter) returns (r: Result<()>)
      requires Valid()
      modifies this, rw`input
      ensures Valid()
      ensures match ReadHeader(old(State()), old(tmpFormat), old(rw.input))
              case Ok(p) => r.Ok? && State() == p.val && rw.input == p.rest && !got
              case Err(_) => r.Err?
    {
      match tmpFormat {
        case 0 => r := ReadFullHeader(rw);
        case 1 => r := ReadLengthHeader(rw);
        case 2 => r := ReadDeltaHeader(rw);
        case _ => r := ReadNoHeader(rw);
      }
    }

    method ReadId(rw: ReadWriter) returns (r: Result<()>)
      requires Valid()
      modifies this`csid, rw`input
      ensures match ChunkSpec.ReadId(old(csid), old(rw.input))
              case Ok(p) => r.Ok? && csid == p.val && rw.input == p.rest
              case Err(_) => r.Err?
    {
      if csid == 0 {
        var id := rw.ReadUintLE(1);
        if id.Err? { return Err(id.error); }
        csid := id.value + 64;
      } else if csid == 1 {
        var id := rw.ReadUintLE(2);
        if id.Err? { return Err(id.error); }
        csid := id.value + 64;
      }
      r := Ok(());
    }

    /** A chunk after its first byte. */
    method ReadRest(rw: ReadWriter, format: nat, chunkSize: nat) returns (r: Result<()>)
      requires Valid()
      modifies this, rw`input
      ensures Valid()
      ensures match ChunkSpec.ReadRest(old(State()), format, chunkSize, old(rw.input))
              case Ok(p) => r.Ok? && State() == p.val && rw.input == p.rest && (got <==> remain == 0)
              case Err(_) => r.Err?
    {
      ghost var c0 := State();
      tmpFormat := format;
      var id := ReadId(rw);
      if id.Err? { return Err(id.error); }
      assert State() == c0.(csid := csid);
      r := ReadChunkHeader(rw);
      if r.Err? { return; }
      r := ReadBody(rw, chunkSize);
    }

    /** Fails, after part of the header, only for a length beyond 24 bits. */
    method WriteHeader(rw: ReadWriter) returns (r: Result<()>)
      requires format < 4
      modifies rw`output
      ensures format >= 2 || length <= 0xffffff ==>
                r.Ok? && rw.output == old(rw.output) + ChunkHeader(format, csid, timestamp, length, typeId, streamId)
      ensures format < 2 && length > 0xffffff ==> r.Err?
    {
      WriteBasicHeader(rw);
      hide BasicHeader, MessageHeaderThen;
      Assoc(old(rw.output), BasicHeader(format, csid),
            MessageHeaderThen(format, timestamp, length, typeId, streamId, []));
      r := WriteMessageHeader(rw);
    }

    /** Format and id; ids from 320 on repeat the first byte, as the source does. */
    method WriteBasicHeader(rw: ReadWriter)
      requires format < 4
      modifies rw`output
      ensures rw.output == old(rw.output) + BasicHeader(format, csid)
    {
      ghost var out := rw.output;
      var h := 64 * format;
      if csid < 64 {
        rw.WriteByte(h + csid);
      } else if csid - 64 < 256 {
        rw.WriteByte(h);
        rw.WriteByte(csid - 64);
      } else if csid - 64 < 65536 {
        rw.WriteByte(h + 1);
        rw.WriteByte(h + 1);
        rw.WriteUintLE(csid - 64, 2);
      }
      assert rw.output == out + BasicHeader(format, csid);
    }

    method WriteMessageHeader(rw: ReadWriter) returns (r: Result<()>)
      modifies rw`output
      ensures format >= 2 || length <= 0xffffff ==>
                r.Ok? &&
                rw.output == old(rw.output) + MessageHeaderThen(format, timestamp, length, typeId, streamId, [])
      ensures format < 2 && length > 0xffffff ==> r.Err?
    {
      ghost var out := rw.output;
      var ts := timestamp;
      if format < 3 {
        if timestamp > EXTENDED { ts := EXTENDED; }
        rw.WriteUintBE(ts, 3);
      }
      if format < 2 {
        if length > 0xffffff { return Err(Invalid); }
        rw.WriteUintBE(length, 3);
        rw.WriteUintBE(typeId, 1);
      }
      if format == 0 {
        rw.WriteUintLE(streamId, 4);
      }
      if ts >= EXTENDED {
        rw.WriteUintBE(timestamp, 4);
      }
      r := Ok(());
      ghost var x := ExtendedThen(timestamp, []);
      EmptyUnit(rw.output);
      EmptyUnit(BE(4, timestamp));
      ghost var a, b, c, d := BE(3, StampField(timestamp)), BE(3, length), BE(1, typeId), LE(4, streamId);
      if format == 0 {
        assert rw.output == ((((out + a) + b) + c) + d) + x;
        Chain(out, a, b, c, d, x);
      } else if format == 1 {
        assert rw.output == (((out + a) + b) + c) + x;
        Chain(out, a, b, c, [], x);
        EmptyUnit(((out + a) + b) + c);
        EmptyUnit(x);
      } else if format == 2 {
        assert rw.output == (out + a) + x;
        Assoc(out, a, x);
      }
    }

    /** Where the payload of chunk number `i` starts. */
    static function Offset(i: nat, chunkSize: nat): nat
    { i * chunkSize }

    static lemma OffsetFacts(i: nat, length: nat, chunkSize: nat)
      requires chunkSize > 0
      ensures Offset(0, chunkSize) == 0 && Offset(i + 1, chunkSize) == Offset(i, chunkSize) + chunkSize
      ensures i > length / chunkSize ==> Offset(i, chunkSize) >= length
    {
      if i > length / chunkSize {
        MultipleBound(chunkSize, i - length / chunkSize);
        assert i * chunkSize == chunkSize * (length / chunkSize) + chunkSize * (i - length / chunkSize);
      }
    }

    static lemma Chain<T>(o: seq<T>, a: seq<T>, b: seq<T>, c: seq<T>, d: seq<T>, x: seq<T>)
      ensures ((((o + a) + b) + c) + d) + x == o + (a + (b + (c + (d + x))))
    {
      Assoc(((o + a) + b) + c, d, x);
      Assoc((o + a) + b, c, d + x);
      Assoc(o + a, b, c + (d + x));
      Assoc(o, a, b + (c + (d + x)));
    }

    /** With the chunks from `off` on still to come, `out` will become `was` and the whole message. */
    static ghost predicate Pending(out: seq<byte>, was: seq<byte>, m: Message, csid: nat, chunkSize: nat, off: nat)
      requires chunkSize > 0
    { out + ChunksFrom(m, csid, chunkSize, off) == was + ChunksFrom(m, csid, chunkSize, 0) }

    static lemma PendingDone(out: seq<byte>, was: seq<byte>, m: Message, csid: nat, chunkSize: nat)
      requires chunkSize > 0 && Pending(out, was, m, csid, chunkSize, |m.data|)
      ensures out == was + ChunksFrom(m, csid, chunkSize, 0)
    { EmptyUnit(out); }

    static lemma ChunksStep(m: Message, csid: nat, chunkSize: nat, start: nat, inc: nat)
      requires chunkSize > 0 && start < |m.data| && inc == Min(chunkSize, |m.data| - start)
      ensures ChunksFrom(m, csid, chunkSize, start)
           == (ChunkHeader(if start == 0 then 0 else 3, csid, m.ts, |m.data|, m.typeId, m.streamId)
               + m.data[start..start + inc])
              + ChunksFrom(m, csid, chunkSize, start + inc)
    { hide ChunkHeader; }

    static lemma Move<T>(o: seq<T>, h: seq<T>, d: seq<T>, rest: seq<T>)
      ensures ((o + h) + d) + rest == o + ((h + d) + rest)
    {
      Assoc(o, h, d);
      Assoc(o, h + d, rest);
    }

    /** Moving one chunk from what is still to be written to what is written. */
    static lemma PendingNext(o: seq<byte>, was: seq<byte>, m: Message, csid: nat, chunkSize: nat, start: nat, inc: nat)
      requires chunkSize > 0 && start < |m.data| && inc == Min(chunkSize, |m.data| - start)
      requires Pending(o, was, m, csid, chunkSize, start)
      ensures Pending((o + ChunkHeader(if start == 0 then 0 else 3, csid, m.ts, |m.data|, m.typeId, m.streamId))
                      + m.data[start..start + inc], was, m, csid, chunkSize, start + inc)
    {
      hide ChunksFrom, ChunkHeader;
      ChunksStep(m, csid, chunkSize, start, inc);
      Move(o, ChunkHeader(if start == 0 then 0 else 3, csid, m.ts, |m.data|, m.typeId, m.streamId),
        m.data[start..start + inc],
           ChunksFrom(m, csid, chunkSize, start + inc));
    }

    lemma OutgoingIs()
      ensures Outgoing() == Message(timestamp, typeId, streamId, data)
    {}

    method AssignId()
      modifies this`csid
      ensures csid == WriteId(typeId, old(csid))
    {
      if typeId == 8 { csid := 4; } else if typeId in {9, 0x12, 0xf} { csid := 6; }
    }

    /** Chunk number `i`, whose payload starts at `start`; returns the number of payload bytes. */
    method WritePiece(rw: ReadWriter, i: nat, start: nat, chunkSize: nat, ghost m: Message, ghost was: seq<byte>)
      returns (r: Result<nat>)
      requires chunkSize > 0 && m == Outgoing() && start < length == |data| && (i == 0 <==> start == 0)
      requires Pending(rw.output, was, m, csid, chunkSize, start)
      modifies this`format, rw`output
      ensures length <= 0xffffff ==> r.Ok? && Pending(rw.output, was, m, csid, chunkSize, start + r.value)
      ensures length > 0xffffff && i == 0 ==> r.Err?
      ensures r.Ok? ==> r.value == if length - start <= chunkSize then length - start else chunkSize
    {
      hide Pending, ChunksFrom, ChunkHeader, Outgoing;
      assert m.ts == timestamp && m.data == data && m.typeId == typeId && m.streamId == streamId by { OutgoingIs(); }
      format := if i == 0 then 0 else 3;
      var h := WriteHeader(rw);
      if h.Err? { return Err(h.error); }
      var inc := chunkSize;
      if |data| - start <= inc { inc := |data| - start; }
      PendingNext(old(rw.output), was, m, csid, chunkSize, start, inc);
      rw.Write(data[start..start + inc]);
      r := Ok(inc);
    }

    /** Splits the message into chunks; an empty message writes nothing. */
    method WriteChunk(rw: ReadWriter, chunkSize: nat) returns (r: Result<()>)
      requires chunkSize > 0 && length == |data|
      modifies this`csid, this`format, rw`output
      ensures csid == WriteId(typeId, old(csid))
      ensures length <= 0xffffff ==>
                r.Ok? && rw.output == old(rw.output) + ChunksFrom(Outgoing(), csid, chunkSize, 0)
      ensures length > 0xffffff ==> r.Err?
    {
      AssignId();
      ghost var m, was, id := Outgoing(), rw.output, csid;
      assert |m.data| == length;
      assert Pending(rw.output, was, m, id, chunkSize, 0);
      var totalLen, i, numChunks := 0, 0, length / chunkSize;
      OffsetFacts(0, length, chunkSize);
      hide Offset, ChunksFrom, Outgoing, Pending, WriteId;
      while i <= numChunks
        invariant csid == id && totalLen <= length && (i == 0 <==> totalLen == 0)
        invariant if totalLen < length then totalLen == Offset(i, chunkSize) else Offset(i, chunkSize) >= length
        invariant 0 < i ==> length <= 0xffffff
        invariant Pending(rw.output, was, m, id, chunkSize, totalLen)
      {
        if totalLen == length { break; }
        OffsetFacts(i, length, chunkSize);
        var n := WritePiece(rw, i, Offset(i, chunkSize), chunkSize, m, was);
        if n.Err? { return Err(n.error); }
        totalLen := totalLen + n.value;
        i := i + 1;
      }
      OffsetFacts(i, length, chunkSize);
      PendingDone(rw.output, was, m, id, chunkSize);
      r := Ok(());
    }
  }

  function AckMessage(value: u32): Message
  { Message(0, ID_ACK, 0, BE(4, value)) }

  function AckBytes(chunkSize: nat, ack: seq<u32>): seq<byte>
    requires ack == [] || chunkSize > 0
  { if ack == [] then [] else ChunksFrom(AckMessage(ack[0]), 2, chunkSize, 0) }

  class Conn {
    const rw: ReadWriter
    var chunkSize: u32
    var remoteChunkSize: u32
    var remoteWindowAckSize: u32
    var received: u32
    var ackReceived: u32
    var chunks: map<nat, ChunkStream>

    ghost var repr: set<object>

    /** No two streams share a record. */
    ghost predicate Valid()
      reads `chunks, `repr, repr
    {
      && this !in repr && rw !in repr
      && (forall k | k in chunks :: chunks[k] in repr && chunks[k].Valid())
      && (forall j, k | j in chunks && k in chunks && j != k :: chunks[j] != chunks[k])
    }

    ghost function Streams(): Streams
      requires Valid()
      reads `chunks, `repr, repr
    { map k | k in chunks :: chunks[k].State() }

    ghost function Tally(): Counters
      reads this
    { Counters(remoteWindowAckSize, received, ackReceived) }

    constructor (rw: ReadWriter)
      ensures Valid() && fresh(repr) && this.rw == rw && Streams() == map[] && Tally() == Counters(2500000, 0, 0)
      ensures chunkSize == remoteChunkSize == 128
    {
      this.rw := rw;
      chunkSize, remoteChunkSize, remoteWindowAckSize := 128, 128, 2500000;
      received, ackReceived, chunks, repr := 0, 0, map[], {};
    }

    method StreamFor(key: nat) returns (c: ChunkStream)
      requires Valid()
      modifies this`chunks, this`repr
      ensures Valid() && fresh(repr - old(repr)) && old(repr) <= repr && key in chunks && chunks[key] == c
      ensures c in repr && c.Valid() && c.State().remain == c.remain
      ensures c.State() == if key in old(Streams()) then old(Streams())[key] else Fresh(key)
      ensures key !in old(chunks) ==> c.State() == StreamState(key, 0, 0, 0, 0, 0, 0, false, 0, [])
      ensures Streams() == old(Streams())[key := c.State()]
    {
      if key in chunks {
        c := chunks[key];
        assert Streams() == old(Streams())[key := c.State()];
      } else {
        c := new ChunkStream(key);
        chunks := chunks[key := c];
        repr := repr + {c};
      }
    }

    /** A chunk after its first byte; the other streams keep their state. */
    method ReadOn(c: ChunkStream, key: nat, format: nat) returns (r: Result<()>)
      requires Valid() && key in chunks && chunks[key] == c
      modifies c, rw`input
      ensures Valid()
      ensures c in repr && c.Valid() && Streams() == old(Streams())[key := c.State()]
      ensures match ChunkSpec.ReadRest(old(c.State()), format, remoteChunkSize, old(rw.input))
              case Ok(p) => r.Ok? && c.State() == p.val && rw.input == p.rest && (c.got <==> c.remain == 0)
              case Err(_) => r.Err?
    {
      hide ReadRest, ChunkStream.State;
      r := c.ReadRest(rw, format, remoteChunkSize);
    }

    /** The basic header: finds or makes the record, and refuses a new message inside another. */
    method BeginChunk() returns (r: Result<ChunkStream>, format: nat, key: nat)
      requires Valid()
      modifies this`chunks, this`repr, rw`input
      ensures Valid() && fresh(repr - old(repr)) && old(repr) <= repr
      ensures match TakeBE(1, old(rw.input))
              case Err(_) => r.Err?
              case Ok(h) =>
                format == h.val / 64 && key == h.val % 64 && rw.input == h.rest &&
                var c := if key in old(Streams()) then old(Streams())[key] else Fresh(key);
                if c.remain != 0 && format != 3 then r.Err? else
                  && r.Ok? && key in chunks && chunks[key] == r.value && r.value in repr
                  && r.value.Valid() && r.value.State() == c && Streams() == old(Streams())[key := c]
    {
      assert rw !in repr;
      hide Valid, Streams, ChunkStream.Valid, ChunkStream.State, TakeBE, Fresh;
      format, key := 0, 0;
      var h := rw.ReadUintBE(1);
      if h.Err? { return Err(h.error), 0, 0; }
      format, key := h.value / 64, h.value % 64;
      var c := StreamFor(key);
      if c.remain != 0 && format != 3 { return Err(Invalid), format, key; }
      r := Ok(c);
    }

    method ReadNextChunk() returns (r: Result<ChunkStream>)
      requires Valid()
      modifies this`chunks, this`repr, rw`input, repr
      ensures Valid() && fresh(repr - old(repr)) && old(repr) <= repr
      ensures match ReadChunk(old(Streams()), remoteChunkSize, old(rw.input))
              case Ok(c) => r.Ok? && c.key in chunks && chunks[c.key] == r.value && r.value.Valid()
                            && Streams() == c.streams && rw.input == c.rest
                              && (r.value.got <==> c.streams[c.key].remain == 0)
              case Err(_) => r.Err?
    {
      var c, format, key := BeginChunk();
      if c.Err? { return c; }
      ghost var before := c.value.State();
      hide Valid, Streams, ChunkStream.Valid, ChunkStream.State, ReadRest, TakeBE, Fresh;
      var b := ReadOn(c.value, key, format);
      UpdateTwice(old(Streams()), key, before, c.value.State());
      if b.Err? { return Err(b.error); }
      r := c;
    }

    /** Sends an acknowledgement once the window is full; the message counted has `size` bytes. */
    method Ack(size: nat) returns (r: Result<()>)
      modifies this`received, this`ackReceived, rw`output
      ensures var s := Count(old(Tally()), size);
              && (r.Ok? <==> s.ack == [] || chunkSize > 0)
              && (r.Ok? ==> Tally() == s.counters && rw.output == old(rw.output) + AckBytes(chunkSize, s.ack))
    {
      ackReceived := Add32(ackReceived, size);
      received := Add32(received, size);
      if received >= RESTART && ackReceived == received {
        ackReceived := 0;
      }
      NoAck(chunkSize, rw.output);
      hide AckBytes;
      if ackReceived >= remoteWindowAckSize {
        if chunkSize == 0 { return Err(Panic); }
        SendAck(ackReceived);
        ackReceived := 0;
      }
      r := Ok(());
    }

    static lemma NoAck(chunkSize: nat, output: seq<byte>)
      ensures output + AckBytes(chunkSize, []) == output
    { EmptyUnit(output); }

    method SendAck(value: u32)
      requires chunkSize > 0
      modifies rw`output
      ensures rw.output == old(rw.output) + AckBytes(chunkSize, [value])
    {
      assert WriteId(ID_ACK, 2) == 2 && AckBytes(chunkSize, [value]) == ChunksFrom(AckMessage(value), 2, chunkSize, 0);
      hide AckBytes, ChunksFrom, WriteId;
      var cs := NewAck(value);
      var _ := cs.WriteChunk(rw, chunkSize);
    }

    method NewAck(value: u32) returns (cs: ChunkStream)
      ensures fresh(cs) && cs.Outgoing() == AckMessage(value) == Message(0, 3, 0, BE(4, value))
      ensures cs.csid == 2 && cs.length == |cs.data| == 4
    { cs := InitControlMsg(ID_ACK, value); }

    method NewSetChunkSize(value: u32) returns (cs: ChunkStream)
      ensures fresh(cs) && cs.length == |cs.data| && Delivery(cs.csid, cs.Outgoing()) == SetChunkSize(0, 2, value)
      ensures cs.csid == 2 && cs.Outgoing() == Message(0, 1, 0, BE(4, value))
    { cs := InitControlMsg(ID_SET_CHUNK_SIZE, value); }

    method InitControlMsg(id: nat, value: u32) returns (cs: ChunkStream)
      ensures fresh(cs) && cs.Outgoing() == Message(0, id, 0, BE(4, value)) && cs.csid == 2
              && cs.length == |cs.data| == 4
    { cs := new ChunkStream.Filled(2, id, 0, 0, BE(4, value)); }

    method HandleControlMsg(c: ChunkStream, ghost m: Message) returns (r: Result<()>)
      requires m.typeId == c.typeId && m.data == c.data
      modifies this`remoteChunkSize, this`remoteWindowAckSize
      ensures r.Ok? <==> ControlOk(m)
      ensures r.Ok? ==> remoteChunkSize == SizeAfter(old(remoteChunkSize), m)
                        && remoteWindowAckSize == WindowAfter(old(remoteWindowAckSize), m)
      ensures r.Ok? ==> remoteChunkSize == if m.typeId == 1 then Announced(m.data) else old(remoteChunkSize)
      ensures r.Ok? ==> remoteWindowAckSize == if m.typeId == 5 then Announced(m.data) else old(remoteWindowAckSize)
    {
      ControlEffect(remoteChunkSize, remoteWindowAckSize, m);
      if c.typeId in {ID_SET_CHUNK_SIZE, ID_WINDOW_ACK_SIZE} && |c.data| < 4 { return Err(Panic); }
      UnBEBound(c.data[..Min(4, |c.data|)]);
      Pow256Values();
      if c.typeId == ID_SET_CHUNK_SIZE {
        remoteChunkSize := UnBE(c.data[..4]);
      } else if c.typeId == ID_WINDOW_ACK_SIZE {
        remoteWindowAckSize := UnBE(c.data[..4]);
      }
      r := Ok(());
    }

    /** Chunks are read until one completes its message. */
    method ReadMessage() returns (r: Result<ChunkStream>)
      requires Valid()
      modifies this`chunks, this`repr, rw`input, repr
      ensures Valid() && fresh(repr - old(repr)) && old(repr) <= repr
      ensures match ReadFull(old(Streams()), remoteChunkSize, old(rw.input))
              case Ok(c) => r.Ok? && c.key in chunks && chunks[c.key] == r.value
                            && Streams() == c.streams && rw.input == c.rest
              case Err(_) => r.Err?
    {
      ghost var full0 := ReadFull(Streams(), remoteChunkSize, rw.input);
      hide Valid, Streams, ReadFull, ChunkStream.Valid, ChunkStream.State, ReadChunk;
      while true
        invariant Valid() && fresh(repr - old(repr)) && old(repr) <= repr
        invariant ReadFull(Streams(), remoteChunkSize, rw.input) == full0
        decreases |rw.input|
      {
        ReadFullStep(Streams(), remoteChunkSize, rw.input);
        r := ReadNextChunk();
        if r.Err? { return; }
        var full := r.value.Full();
        if full { return; }
      }
    }

    /** Applies a complete message if it is a control message, and counts it. */
    method Account(c: ChunkStream, ghost m: Message) returns (r: Result<()>)
      requires m.typeId == c.typeId && m.data == c.data
      modifies this`remoteChunkSize, this`remoteWindowAckSize, this`received, this`ackReceived, rw`output
      ensures r.Ok? <==> ControlOk(m) && (Counted(old(Tally()), m, c.length).ack == [] || chunkSize > 0)
      ensures r.Ok? ==>
                var s := Counted(old(Tally()), m, c.length);
                && remoteChunkSize == SizeAfter(old(remoteChunkSize), m) && Tally() == s.counters
                && rw.output == old(rw.output) + AckBytes(chunkSize, s.ack)
    {
      var h := HandleControlMsg(c, m);
      if h.Err? { return Err(Panic); }
      r := Ack(c.length);
    }

    /** Reads one message, applies it if it is a control message, and counts it. */
    method Read() returns (r: Result<ChunkStream>)
      requires Valid()
      modifies this, rw, repr
      ensures chunkSize == old(chunkSize)
      ensures r.Ok? ==> Valid() && fresh(repr - old(repr))
      ensures match ReadFull(old(Streams()), old(remoteChunkSize), old(rw.input))
              case Err(_) => r.Err?
              case Ok(c) =>
                var m := MessageOf(c.streams[c.key]);
                if !ControlOk(m) then r.Err? else
                  var s := Counted(old(Tally()), m, c.streams[c.key].length);
                  (r.Ok? <==> s.ack == [] || chunkSize > 0) &&
                  (r.Ok? ==>
                     c.key in chunks && chunks[c.key] == r.value && Streams() == c.streams && rw.input == c.rest &&
                     remoteChunkSize == SizeAfter(old(remoteChunkSize), m) && Tally() == s.counters &&
                     rw.output == old(rw.output) + AckBytes(chunkSize, s.ack))
    {
      hide Counted, AckBytes, ControlOk, SizeAfter, ReadFull, WindowAfter;
      r := ReadMessage();
      if r.Err? { return; }
      var c := r.value;
      ghost var m := MessageOf(c.State());
      assert m.typeId == c.typeId && m.data == c.data && c.State().length == c.length;
      assert rw !in repr && this !in repr;
      hide Valid, Streams, ChunkStream.Valid, ChunkStream.State, MessageOf;
      var a := Account(c, m);
      if a.Err? { return Err(Panic); }
    }

    /** Writes `c`; a Set Chunk Size message changes the chunk size it is itself written with. */
    method Write(c: ChunkStream) returns (r: Result<()>)
      requires c.length == |c.data|
      modifies this`chunkSize, c`csid, c`format, rw`output
      ensures var d := Delivery(old(c.csid), c.Outgoing());
              var sized := d.msg.typeId == ID_SET_CHUNK_SIZE ==> |d.msg.data| >= 4;
              && (sized ==> chunkSize == SizeFor(old(chunkSize), d))
              && (sized ==> chunkSize == if d.msg.typeId == 1 then Announced(d.msg.data) else old(chunkSize))
              && (r.Ok? <==> sized && chunkSize > 0 && |d.msg.data| <= 0xffffff)
              && (r.Ok? ==> rw.output == old(rw.output) + WriteBytes(old(chunkSize), d))
    {
      if c.typeId == ID_SET_CHUNK_SIZE {
        if |c.data| < 4 { return Err(Panic); }
        UnBEBound(c.data[..4]);
        Pow256Values();
        ControlValueIs(c.Outgoing());
        chunkSize := UnBE(c.data[..4]);
      }
      if chunkSize == 0 { return Err(Panic); }
      r := c.WriteChunk(rw, chunkSize);
    }

    static lemma UpdateTwice<K, V>(m: map<K, V>, k: K, a: V, b: V)
      ensures m[k := a][k := b] == m[k := b]
    {}
  }
}
