/**
 A sender that interleaves messages chunk by chunk, with any header format the reader supports, and the
 proof that the reader recovers exactly its messages.
 */
module ChunkProtocol {
  import opened Bytes
  import opened ChunkSpec

  /** The last message begun on a chunk stream, and the last explicit header format and delta sent there. */
  datatype Context = Context(last: Message, format: nat, delta: u32)

  /** `pending` gives, for the streams with a message in flight, how many of its bytes are sent. */
  datatype Sender = Sender(chunkSize: nat, ctx: map<nat, Context>, pending: map<nat, nat>)

  datatype Step = Start(csid: nat, format: nat, msg: Message) | Continue(csid: nat)

  function Delta(prev: Message, m: Message): u32
  { (m.ts - prev.ts) % 0x1_0000_0000 }

  /** Whether the headers on this stream carry an extended timestamp field. */
  predicate Extended(c: Context)
  { if c.format == 0 then c.last.ts >= EXTENDED else c.delta >= EXTENDED }

  /**
   The formats with which the reader takes `m` as the next message of a stream; an extended delta needs a
   one-chunk message, and format 3 behind format 0 repeats the time stamp (see `RepeatBehindFull`).
   */
  predicate LegalFormat(ctx: map<nat, Context>, chunkSize: nat, csid: nat, format: nat, m: Message)
  {
    format == 0 ||
    (csid in ctx &&
     var c := ctx[csid];
     var d := Delta(c.last, m);
     && m.streamId == c.last.streamId
     && (format in {2, 3} ==> m.typeId == c.last.typeId && |m.data| == |c.last.data|)
     && (format in {1, 2} ==> d < EXTENDED || |m.data| <= chunkSize)
     && (format == 3 ==>
           if c.format == 0 then (if Extended(c) then m.ts >= EXTENDED else m.ts == c.last.ts)
           else if Extended(c) then d >= EXTENDED && |m.data| <= chunkSize
           else d == c.delta)
     && format <= 3)
  }

  predicate Legal(s: Sender, st: Step)
  {
    match st
    case Start(csid, format, m) =>
      2 <= csid < 64 && csid !in s.pending && |m.data| <= 0xffffff && m.typeId < 256 && ControlOk(m) &&
      LegalFormat(s.ctx, s.chunkSize, csid, format, m)
    case Continue(csid) => csid in s.pending
  }

  predicate ValidSender(s: Sender)
  {
    && (forall k | k in s.ctx :: 2 <= k < 64 && s.ctx[k].format <= 2 && |s.ctx[k].last.data| <= 0xffffff &&
                                 s.ctx[k].last.typeId < 256 && ControlOk(s.ctx[k].last))
    && (forall k | k in s.pending :: k in s.ctx && s.pending[k] < |s.ctx[k].last.data|)
    && (forall k | k in s.pending && s.ctx[k].format != 0 :: s.ctx[k].delta < EXTENDED)
  }

  function NextContext(s: Sender, csid: nat, format: nat, m: Message): Context
    requires LegalFormat(s.ctx, s.chunkSize, csid, format, m)
  {
    if format == 0 then Context(m, 0, 0)
    else if format < 3 then Context(m, format, Delta(s.ctx[csid].last, m))
    else s.ctx[csid].(last := m)
  }

  /** The value the sender puts in the timestamp field: the timestamp itself, or the delta. */
  function Field(s: Sender, csid: nat, format: nat, m: Message): u32
    requires LegalFormat(s.ctx, s.chunkSize, csid, format, m)
  {
    if format == 0 || (format == 3 && s.ctx[csid].format == 0) then m.ts else Delta(s.ctx[csid].last, m)
  }

  function ContinueField(c: Context): u32
  { if c.format == 0 then c.last.ts else c.delta }

  function Sent(s: Sender, st: Step): nat
    requires ValidSender(s) && Legal(s, st)
  { if st.Start? then 0 else s.pending[st.csid] }

  function Current(s: Sender, st: Step): Message
    requires ValidSender(s) && Legal(s, st)
  { if st.Start? then st.msg else s.ctx[st.csid].last }

  function SentAfter(s: Sender, st: Step): (n: nat)
    requires ValidSender(s) && Legal(s, st)
    ensures Sent(s, st) <= n <= |Current(s, st).data|
  { Sent(s, st) + Min(|Current(s, st).data| - Sent(s, st), s.chunkSize) }

  function FormatOf(st: Step): nat
  { if st.Start? then st.format else 3 }

  function FieldOf(s: Sender, st: Step): u32
    requires ValidSender(s) && Legal(s, st)
  { if st.Start? then Field(s, st.csid, st.format, st.msg) else ContinueField(s.ctx[st.csid]) }

  function ContextAfter(s: Sender, st: Step): Context
    requires ValidSender(s) && Legal(s, st)
  { if st.Start? then NextContext(s, st.csid, st.format, st.msg) else s.ctx[st.csid] }

  function HeaderOf(s: Sender, st: Step, tail: seq<byte>): seq<byte>
    requires ValidSender(s) && Legal(s, st)
  {
    var m := Current(s, st);
    MessageHeaderThen(FormatOf(st), FieldOf(s, st), |m.data|, m.typeId, m.streamId, tail)
  }

  function Payload(s: Sender, st: Step): seq<byte>
    requires ValidSender(s) && Legal(s, st)
  { Current(s, st).data[Sent(s, st)..SentAfter(s, st)] }

  /** The bytes of one chunk. */
  function Emit(s: Sender, st: Step): seq<byte>
    requires ValidSender(s) && Legal(s, st)
  { BasicHeader(FormatOf(st), st.csid) + HeaderOf(s, st, []) + Payload(s, st) }

  predicate Completes(s: Sender, st: Step)
    requires ValidSender(s) && Legal(s, st)
  { SentAfter(s, st) == |Current(s, st).data| }

  function Finished(s: Sender, st: Step): seq<Delivery>
    requires ValidSender(s) && Legal(s, st)
  { if Completes(s, st) then [Delivery(st.csid, Current(s, st))] else [] }

  function Next(s: Sender, st: Step): (s': Sender)
    requires ValidSender(s) && Legal(s, st)
    ensures ValidSender(s')
  {
    CurrentOk(s, st);
    var m := Current(s, st);
    var ctx := if st.Start? then s.ctx[st.csid := ContextAfter(s, st)] else s.ctx;
    var s' := if Completes(s, st) then Sender(SizeAfter(s.chunkSize, m), ctx, s.pending - {st.csid})
              else Sender(s.chunkSize, ctx, s.pending[st.csid := SentAfter(s, st)]);
    NextValid(s, st, s');
    s'
  }

  lemma CurrentOk(s: Sender, st: Step)
    requires ValidSender(s) && Legal(s, st)
    ensures ControlOk(Current(s, st))
  {}

  lemma NextValid(s: Sender, st: Step, s': Sender)
    requires ValidSender(s) && Legal(s, st)
    requires s'.ctx == if st.Start? then s.ctx[st.csid := ContextAfter(s, st)] else s.ctx
    requires s'.pending == if Completes(s, st) then s.pending - {st.csid} else s.pending[st.csid := SentAfter(s, st)]
    ensures ValidSender(s')
  {
    ContextValid(s, st);
    hide Legal, ContextAfter, SentAfter, Current, Completes, ControlOk;
  }

  lemma ContextValid(s: Sender, st: Step)
    requires ValidSender(s) && Legal(s, st)
    ensures 2 <= st.csid < 64 && (st.Continue? ==> st.csid in s.pending && ContextAfter(s, st) == s.ctx[st.csid])
    ensures
      var c := ContextAfter(s, st);
      && c.format <= 2 && |c.last.data| <= 0xffffff && c.last.typeId < 256 && ControlOk(c.last)
      && (!Completes(s, st) ==> SentAfter(s, st) < |c.last.data| && (c.format != 0 ==> c.delta < EXTENDED))
  {}

  predicate LegalRun(s: Sender, steps: seq<Step>)
    requires ValidSender(s)
    decreases |steps|
  { steps == [] || (Legal(s, steps[0]) && LegalRun(Next(s, steps[0]), steps[1..])) }

  /** The bytes of a whole run, the messages it completes in the order of their last chunks, its last state. */
  function Wire(s: Sender, steps: seq<Step>): seq<byte>
    requires ValidSender(s) && LegalRun(s, steps)
    decreases |steps|
  { if steps == [] then [] else Emit(s, steps[0]) + Wire(Next(s, steps[0]), steps[1..]) }

  function Completed(s: Sender, steps: seq<Step>): seq<Delivery>
    requires ValidSender(s) && LegalRun(s, steps)
    decreases |steps|
  {
    if steps == [] then [] else Finished(s, steps[0]) + Completed(Next(s, steps[0]), steps[1..])
  }

  function Final(s: Sender, steps: seq<Step>): (s': Sender)
    requires ValidSender(s) && LegalRun(s, steps)
    ensures ValidSender(s')
    decreases |steps|
  { if steps == [] then s else Final(Next(s, steps[0]), steps[1..]) }

  lemma ConsRun(s: Sender, st: Step, tail: seq<Step>)
    requires ValidSender(s) && Legal(s, st) && LegalRun(Next(s, st), tail)
    ensures LegalRun(s, [st] + tail)
    ensures Wire(s, [st] + tail) == Emit(s, st) + Wire(Next(s, st), tail)
    ensures Completed(s, [st] + tail) == Finished(s, st) + Completed(Next(s, st), tail)
    ensures Final(s, [st] + tail) == Final(Next(s, st), tail)
  {
    assert ([st] + tail)[1..] == tail;
  }

  const NewSender := Sender(128, map[], map[])

  // ---- the reader's state as a function of the sender's ----

  predicate StreamAgrees(c: StreamState, csid: nat, ctx: Context, remain: nat)
  {
    && c.csid == csid && c.format == ctx.format && c.ts == ctx.last.ts && c.length == |ctx.last.data|
    && c.typeId == ctx.last.typeId && c.streamId == ctx.last.streamId
    && (ctx.format != 0 ==> c.delta == ctx.delta) && (c.exted <==> Extended(ctx))
    && c.remain == remain <= |ctx.last.data|
    && (remain > 0 ==> c.body == ctx.last.data[..|ctx.last.data| - remain])
  }

  function Remaining(s: Sender, csid: nat): nat
    requires ValidSender(s)
  { if csid in s.pending then |s.ctx[csid].last.data| - s.pending[csid] else 0 }

  ghost predicate Agrees(s: Sender, streams: Streams, chunkSize: nat)
    requires ValidSender(s)
  {
    && chunkSize == s.chunkSize
    && streams.Keys == s.ctx.Keys
    && forall k | k in s.ctx :: StreamAgrees(streams[k], k, s.ctx[k], Remaining(s, k))
  }

  /** The reader's record of the stream of `st` before the chunk, after its header, and after its payload. */
  predicate KnownBefore(s: Sender, st: Step, c: StreamState)
    requires ValidSender(s) && Legal(s, st)
  {
    && (st.csid in s.ctx ==> StreamAgrees(c, st.csid, s.ctx[st.csid], Remaining(s, st.csid)))
    && (st.csid !in s.ctx ==> c == Fresh(st.csid))
  }

  predicate KnownAtPayload(s: Sender, st: Step, c: StreamState)
    requires ValidSender(s) && Legal(s, st)
  {
    && StreamAgrees(c, st.csid, ContextAfter(s, st), |Current(s, st).data| - Sent(s, st))
    && c.body == Current(s, st).data[..Sent(s, st)]
  }

  predicate KnownAfter(s: Sender, st: Step, c: StreamState)
    requires ValidSender(s) && Legal(s, st)
  {
    && StreamAgrees(c, st.csid, ContextAfter(s, st), |Current(s, st).data| - SentAfter(s, st))
    && c.body == Current(s, st).data[..SentAfter(s, st)]
  }

  // ---- one header ----

  lemma HeaderThen(format: nat, ts: u32, length: nat, typeId: nat, streamId: u32, tail: seq<byte>)
    ensures MessageHeaderThen(format, ts, length, typeId, streamId, []) + tail
         == MessageHeaderThen(format, ts, length, typeId, streamId, tail)
  {
    var x, y := ExtendedThen(ts, []), ExtendedThen(ts, tail);
    assert x + tail == y;
    match format
    case 0 =>
      var a, b, c, d := BE(3, StampField(ts)), BE(3, length), BE(1, typeId), LE(4, streamId);
      assert (a + (b + (c + (d + x)))) + tail == a + (b + (c + (d + (x + tail))));
    case 1 =>
      var a, b, c := BE(3, StampField(ts)), BE(3, length), BE(1, typeId);
      assert (a + (b + (c + x))) + tail == a + (b + (c + (x + tail)));
    case 2 =>
      assert (BE(3, StampField(ts)) + x) + tail == BE(3, StampField(ts)) + (x + tail);
    case _ =>
  }

  /** The time stamp field in bytes, and the four bytes behind the header of a stamp from 0xffffff on. */
  lemma StampBytes(ts: u32)
    ensures BE(3, StampField(ts)) == if ts < 0xff_ffff then BE(3, ts) else [0xff, 0xff, 0xff]
    ensures ExtendedThen(ts, []) == if ts < 0xff_ffff then [] else BE(4, ts)
  {
    UnBEDigits(0xff, 0xff, 0xff, 0);
    BEofUnBE([0xff, 0xff, 0xff]);
    EmptyUnit(BE(4, ts));
  }

  /**
   The bytes of a chunk header with a short stream id: 24-bit big-endian fields, the message stream in
   little-endian order, and a time stamp or delta from 0xffffff on behind the header.
  */
  lemma HeaderLayout(format: nat, csid: nat, ts: u32, length: nat, typeId: byte, streamId: u32)
    requires format < 4 && csid < 64
    ensures
      var stamp := if ts < 0xff_ffff then BE(3, ts) else [0xff, 0xff, 0xff];
      var x := if ts < 0xff_ffff then [] else BE(4, ts);
      ChunkHeader(format, csid, ts, length, typeId, streamId)
      == [64 * format + csid] +
         match format
         case 0 => stamp + (BE(3, length) + ([typeId] + (LE(4, streamId) + x)))
         case 1 => stamp + (BE(3, length) + ([typeId] + x))
         case 2 => stamp + x
         case _ => x
  {
    assert BE(1, typeId) == [typeId];
    hide *;
    StampBytes(ts);
    HeaderParts(format, csid, ts, length, typeId, streamId);
  }

  lemma HeaderParts(format: nat, csid: nat, ts: u32, length: nat, typeId: nat, streamId: u32)
    requires format < 4 && csid < 64
    ensures
      var stamp, x := BE(3, StampField(ts)), ExtendedThen(ts, []);
      ChunkHeader(format, csid, ts, length, typeId, streamId)
      == [64 * format + csid] +
         match format
         case 0 => stamp + (BE(3, length) + (BE(1, typeId) + (LE(4, streamId) + x)))
         case 1 => stamp + (BE(3, length) + (BE(1, typeId) + x))
         case 2 => stamp + x
         case _ => x
  { hide BE, LE, StampField, ExtendedThen; }

  /** Longer ids: one byte less 64, or two in little-endian order behind a first byte that the writer doubles. */
  lemma IdLayout(format: nat, csid: nat, a: byte, b: byte, rest: seq<byte>)
    requires format < 4
    ensures 64 <= csid < 320 ==> BasicHeader(format, csid) == [64 * format, csid - 64]
    ensures 320 <= csid < 65600 ==> BasicHeader(format, csid) == [64 * format + 1, 64 * format + 1] + LE(2, csid - 64)
    ensures ReadId(0, [a] + rest) == Ok(Parsed(64 + a, rest))
    ensures ReadId(1, [a, b] + rest) == Ok(Parsed(64 + a + 0x100 * (b as int), rest))
  {
    UnBEDigits(a, b, 0, 0);
    TakeAppend([a], rest);
    TakeAppend([a, b], rest);
  }

  lemma ReadsExtended(ts: u32, tail: seq<byte>)
    ensures StampField(ts) < 0x100_0000
    ensures ReadExtended(StampField(ts), ExtendedThen(ts, tail)) == Ok(Parsed(ts, tail))
  { Pow256Values(); if ts >= EXTENDED { TakeBEAppend(4, ts, tail); } }

  /** Reading back an explicit header (formats 0 to 2). */
  lemma ReadsExplicitHeader(c: StreamState, format: nat, ts: u32, length: nat, typeId: nat, streamId: u32,
        tail: seq<byte>)
    requires format <= 2 && length <= 0xffffff && typeId < 256
    ensures ReadHeader(c, format, MessageHeaderThen(format, ts, length, typeId, streamId, tail))
         == Ok(Parsed(Restart(
                        match format
                        case 0 => c.(format := 0, ts := ts, length := length, typeId := typeId,
                                     streamId := streamId, exted := ts >= EXTENDED)
                        case 1 => c.(format := 1, ts := Advance(c.ts, ts), length := length, typeId := typeId,
                                     delta := ts, exted := ts >= EXTENDED)
                        case _ => c.(format := 2, ts := Advance(c.ts, ts), delta := ts,
                                     exted := ts >= EXTENDED)), tail))
  {
    Pow256Values();
    ReadsExtended(ts, tail);
    var x := ExtendedThen(ts, tail);
    if format == 0 {
      TakeLEAppend(4, streamId, x);
      TakeBEAppend(1, typeId, LE(4, streamId) + x);
      TakeBEAppend(3, length, BE(1, typeId) + (LE(4, streamId) + x));
      TakeBEAppend(3, StampField(ts), BE(3, length) + (BE(1, typeId) + (LE(4, streamId) + x)));
    } else if format == 1 {
      TakeBEAppend(1, typeId, x);
      TakeBEAppend(3, length, BE(1, typeId) + x);
      TakeBEAppend(3, StampField(ts), BE(3, length) + (BE(1, typeId) + x));
    } else {
      TakeBEAppend(3, StampField(ts), x);
    }
  }

  /** A delta is added to the time stamp modulo 2^32; a full header sets it. */
  lemma StampsRead(c: StreamState, format: nat, field: u32, length: nat, typeId: nat, streamId: u32, tail: seq<byte>)
    requires format <= 2 && length <= 0xffffff && typeId < 256
    ensures
      var r := ReadHeader(c, format, MessageHeaderThen(format, field, length, typeId, streamId, tail));
      r.Ok? && r.value.val.ts == if format == 0 then field else (c.ts + field) % 0x1_0000_0000
  { ReadsExplicitHeader(c, format, field, length, typeId, streamId, tail); }

  lemma StartsExplicit(s: Sender, st: Step, c: StreamState, tail: seq<byte>) returns (c': StreamState)
    requires ValidSender(s) && Legal(s, st) && st.Start? && st.format <= 2
    requires st.csid in s.ctx ==> StreamAgrees(c, st.csid, s.ctx[st.csid], 0)
    requires st.csid !in s.ctx ==> c == Fresh(st.csid)
    ensures ReadHeader(c, st.format, HeaderOf(s, st, tail)) == Ok(Parsed(c', tail))
    ensures StreamAgrees(c', st.csid, NextContext(s, st.csid, st.format, st.msg), |st.msg.data|) && c'.body == []
  {
    var m := st.msg;
    var field := Field(s, st.csid, st.format, m);
    ReadsExplicitHeader(c, st.format, field, |m.data|, m.typeId, m.streamId, tail);
    c' := ReadHeader(c, st.format, MessageHeaderThen(st.format, field, |m.data|, m.typeId, m.streamId, tail)).value.val;
    if st.format != 0 { AdvanceByDelta(s.ctx[st.csid].last, m); }
  }

  lemma AdvanceByDelta(prev: Message, m: Message)
    ensures Advance(prev.ts, Delta(prev, m)) == m.ts
  {}

  /**
   Inside a message whose headers carry an extended field, the reader takes the four bytes off a
   continuation chunk exactly when they repeat the message's timestamp. A full header repeats it; an
   extended delta does only if it equals the timestamp, which is why no legal sender splits such a message.
   */
  lemma ExtendedContinuation(c: StreamState, field: u32, rest: seq<byte>)
    requires c.remain != 0 && c.exted
    ensures ReadNoHeader(c, BE(4, field) + rest) == Ok(Parsed(c, rest)) <==> field == c.ts
    ensures ReadNoHeader(c, BE(4, field) + rest).Ok?
  {
    Pow256Values();
    TakeBEAppend(4, field, rest);
    assert |BE(4, field) + rest| == 4 + |rest|;
  }

  /**
   A new message without a header behind one of format 0: the reader takes over the time stamp, while
   section 5.3.1.2.4 adds it as a delta. The two agree exactly when the earlier time stamp is 0.
   */
  lemma RepeatBehindFull(c: StreamState, field: u32, rest: seq<byte>)
    requires c.remain == 0 && c.format == 0 && (!c.exted ==> field == c.ts)
    ensures
      var p := ReadNoHeader(c, (if c.exted then BE(4, field) else []) + rest);
      p.Ok? && p.value.rest == rest && p.value.val.ts == field
        && (p.value.val.ts == Advance(c.ts, field) <==> c.ts == 0)
  {
    Pow256Values();
    if c.exted { TakeBEAppend(4, field, rest); } else { EmptyUnit(rest); }
  }

  lemma StartsRepeated(s: Sender, st: Step, c: StreamState, tail: seq<byte>) returns (c': StreamState)
    requires ValidSender(s) && Legal(s, st) && st.Start? && st.format == 3
    requires StreamAgrees(c, st.csid, s.ctx[st.csid], 0)
    ensures ReadHeader(c, 3, HeaderOf(s, st, tail)) == Ok(Parsed(c', tail))
    ensures StreamAgrees(c', st.csid, NextContext(s, st.csid, 3, st.msg), |st.msg.data|) && c'.body == []
  {
    var m, ctx := st.msg, s.ctx[st.csid];
    var field := Field(s, st.csid, 3, m);
    Pow256Values();
    AdvanceByDelta(ctx.last, m);
    if c.exted { TakeBEAppend(4, field, tail); }
    c' := Restart(if c.format == 0 then (if c.exted then c.(ts := m.ts) else c) else c.(ts := m.ts));
  }

  lemma Continues(s: Sender, st: Step, c: StreamState, tail: seq<byte>)
    requires ValidSender(s) && Legal(s, st) && st.Continue?
    requires StreamAgrees(c, st.csid, s.ctx[st.csid], Remaining(s, st.csid))
    ensures ReadHeader(c, 3, HeaderOf(s, st, tail)) == Ok(Parsed(c, tail))
  {
    Pow256Values();
    if c.exted { TakeBEAppend(4, ContinueField(s.ctx[st.csid]), tail); }
  }

  /** The header state the reader must reach when a message is started or continued. */
  lemma ReadsHeader(s: Sender, st: Step, c: StreamState, tail: seq<byte>) returns (c': StreamState)
    requires ValidSender(s) && Legal(s, st) && KnownBefore(s, st, c)
    ensures ReadHeader(c, FormatOf(st), HeaderOf(s, st, tail)) == Ok(Parsed(c', tail))
    ensures KnownAtPayload(s, st, c')
  {
    if st.Continue? {
      Continues(s, st, c, tail);
      c' := c;
    } else if st.format <= 2 {
      c' := StartsExplicit(s, st, c, tail);
    } else {
      c' := StartsRepeated(s, st, c, tail);
    }
  }

  lemma HeaderOfThen(s: Sender, st: Step, tail: seq<byte>)
    requires ValidSender(s) && Legal(s, st)
    ensures HeaderOf(s, st, []) + tail == HeaderOf(s, st, tail)
  {
    var m := Current(s, st);
    HeaderThen(FormatOf(st), FieldOf(s, st), |m.data|, m.typeId, m.streamId, tail);
  }

  function FirstByte(st: Step): (h: byte)
    requires 2 <= st.csid < 64 && (st.Start? ==> st.format <= 3)
  { 64 * FormatOf(st) + st.csid }

  lemma EmitParts(s: Sender, st: Step)
    requires ValidSender(s) && Legal(s, st)
    ensures 2 <= st.csid < 64 && (st.Start? ==> st.format <= 3)
    ensures Emit(s, st) == ([FirstByte(st)] + HeaderOf(s, st, [])) + Payload(s, st)
  {}

  /** The first byte of a chunk, then its header, whatever follows. */
  lemma EmitThen(s: Sender, st: Step, rest: seq<byte>)
    requires ValidSender(s) && Legal(s, st)
    ensures 2 <= st.csid < 64 && (st.Start? ==> st.format <= 3)
    ensures FirstByte(st) == 64 * FormatOf(st) + st.csid && FormatOf(st) < 4
    ensures TakeBE(1, Emit(s, st) + rest) == Ok(Parsed(FirstByte(st), HeaderOf(s, st, Payload(s, st) + rest)))
  {
    EmitParts(s, st);
    hide *;
    HeaderOfThen(s, st, Payload(s, st) + rest);
    Regroup([FirstByte(st)], HeaderOf(s, st, []), Payload(s, st), rest);
    TakesByte(FirstByte(st), HeaderOf(s, st, Payload(s, st) + rest));
  }

  lemma Regroup<T>(a: seq<T>, b: seq<T>, c: seq<T>, d: seq<T>)
    ensures ((a + b) + c) + d == a + (b + (c + d))
  {}

  lemma TakesByte(h: byte, tail: seq<byte>)
    ensures TakeBE(1, [h] + tail) == Ok(Parsed(h, tail))
  {
    Pow256Values();
    assert BE(1, h) == [h];
    TakeBEAppend(1, h, tail);
  }

  lemma ReadsPayload(s: Sender, st: Step, c: StreamState, chunkSize: nat, rest: seq<byte>) returns (c': StreamState)
    requires ValidSender(s) && Legal(s, st) && chunkSize == s.chunkSize
    requires KnownAtPayload(s, st, c)
    ensures ReadPayload(c, chunkSize, Payload(s, st) + rest) == Ok(Parsed(c', rest))
    ensures KnownAfter(s, st, c')
  {
    TakeAppend(Payload(s, st), rest);
    var data, a, b := Current(s, st).data, Sent(s, st), SentAfter(s, st);
    assert data[..a] + data[a..b] == data[..b];
    c' := c.(body := c.body + Payload(s, st), remain := c.remain - (b - a));
  }

  /** A chunk is read by reading its first byte, its header and its payload in turn. */
  lemma ChunkFromParts(streams: Streams, chunkSize: nat, input: seq<byte>, format: nat, key: nat,
                       r1: seq<byte>, r2: seq<byte>, r3: seq<byte>, c1: StreamState, c2: StreamState)
    requires format < 4 && 2 <= key < 64
    requires TakeBE(1, input) == Ok(Parsed(64 * format + key, r1))
    requires key in streams ==> streams[key].csid == key && (streams[key].remain != 0 ==> format == 3)
    requires ReadHeader(if key in streams then streams[key] else Fresh(key), format, r1) == Ok(Parsed(c1, r2))
    requires ReadPayload(c1, chunkSize, r2) == Ok(Parsed(c2, r3))
    ensures ReadChunk(streams, chunkSize, input) == Ok(ChunkRead(streams[key := c2], key, r3))
  {
    var c := if key in streams then streams[key] else Fresh(key);
    assert c.csid == key && (c.remain != 0 ==> format == 3);
    hide ReadHeader, ReadPayload, TakeBE, Fresh;
    RestFromParts(c, format, chunkSize, r1, r2, r3, c1, c2);
    FirstByteParts(format, key);
    hide ReadRest, ReadChunk;
    ChunkByByte(streams, chunkSize, input, 64 * format + key, r1, c, c2, r3);
  }

  lemma ChunkByByte(streams: Streams, chunkSize: nat, input: seq<byte>, h: nat, r1: seq<byte>,
                    c: StreamState, c2: StreamState, r3: seq<byte>)
    requires TakeBE(1, input) == Ok(Parsed(h, r1))
    requires c == (if h % 64 in streams then streams[h % 64] else Fresh(h % 64)) && (c.remain != 0 ==> h / 64 == 3)
    requires ReadRest(c, h / 64, chunkSize, r1) == Ok(Parsed(c2, r3))
    ensures ReadChunk(streams, chunkSize, input) == Ok(ChunkRead(streams[h % 64 := c2], h % 64, r3))
  { hide ReadRest, TakeBE, Fresh; }

  lemma RestFromParts(c: StreamState, format: nat, chunkSize: nat, r1: seq<byte>, r2: seq<byte>, r3: seq<byte>,
                      c1: StreamState, c2: StreamState)
    requires c.csid >= 2
    requires ReadHeader(c, format, r1) == Ok(Parsed(c1, r2)) && ReadPayload(c1, chunkSize, r2) == Ok(Parsed(c2, r3))
    ensures ReadRest(c, format, chunkSize, r1) == Ok(Parsed(c2, r3))
  {
    hide ReadHeader, ReadPayload;
    assert ReadId(c.csid, r1) == Ok(Parsed(c.csid, r1)) && c.(csid := c.csid) == c;
  }

  lemma FirstByteParts(format: nat, key: nat)
    requires key < 64
    ensures (64 * format + key) / 64 == format && (64 * format + key) % 64 == key
  { ModUnique(64 * format + key, 64, format, key); }

  lemma ReadsOneChunk(s: Sender, st: Step, streams: Streams, chunkSize: nat, rest: seq<byte>) returns (c: StreamState)
    requires ValidSender(s) && Legal(s, st) && Agrees(s, streams, chunkSize)
    ensures ReadChunk(streams, chunkSize, Emit(s, st) + rest) == Ok(ChunkRead(streams[st.csid := c], st.csid, rest))
    ensures KnownAfter(s, st, c)
  {
    hide *;
    var c0 := StreamBefore(s, st, streams, chunkSize);
    var c1 := ReadsHeader(s, st, c0, Payload(s, st) + rest);
    c := ReadsPayload(s, st, c1, chunkSize, rest);
    EmitThen(s, st, rest);
    ChunkFromParts(streams, chunkSize, Emit(s, st) + rest, FormatOf(st), st.csid,
                   HeaderOf(s, st, Payload(s, st) + rest), Payload(s, st) + rest, rest, c1, c);
  }

  /** One step of the sender is one chunk of the reader, and keeps the two in agreement. */
  lemma ReadsChunk(s: Sender, st: Step, streams: Streams, chunkSize: nat, rest: seq<byte>) returns (streams': Streams)
    requires ValidSender(s) && Legal(s, st) && Agrees(s, streams, chunkSize)
    ensures ReadChunk(streams, chunkSize, Emit(s, st) + rest) == Ok(ChunkRead(streams', st.csid, rest))
    ensures Agrees(Next(s, st), streams', Next(s, st).chunkSize)
    ensures st.csid in streams' && (streams'[st.csid].remain == 0 <==> Completes(s, st))
    ensures streams'[st.csid].csid == st.csid
    ensures Completes(s, st) ==> MessageOf(streams'[st.csid]) == Current(s, st)
  {
    assert chunkSize == s.chunkSize;
    hide *;
    var c := ReadsOneChunk(s, st, streams, chunkSize, rest);
    streams' := streams[st.csid := c];
    AgreesNext(s, st, streams, streams', c);
    KnownComplete(s, st, c);
  }

  lemma KnownComplete(s: Sender, st: Step, c: StreamState)
    requires ValidSender(s) && Legal(s, st) && KnownAfter(s, st, c)
    ensures c.csid == st.csid && (c.remain == 0 <==> Completes(s, st))
    ensures Completes(s, st) ==> MessageOf(c) == Current(s, st)
  { TakeAll(Current(s, st).data); }

  lemma StreamBefore(s: Sender, st: Step, streams: Streams, chunkSize: nat) returns (c: StreamState)
    requires ValidSender(s) && Legal(s, st) && Agrees(s, streams, chunkSize)
    ensures 2 <= st.csid < 64 && FormatOf(st) < 4 && s.chunkSize == chunkSize
    ensures c == if st.csid in streams then streams[st.csid] else Fresh(st.csid)
    ensures KnownBefore(s, st, c)
    ensures c.csid == st.csid && (c.remain != 0 ==> FormatOf(st) == 3)
    ensures st.csid in streams ==> streams[st.csid] == c
  {
    c := if st.csid in streams then streams[st.csid] else Fresh(st.csid);
  }

  lemma NextParts(s: Sender, st: Step)
    requires ValidSender(s) && Legal(s, st)
    ensures Next(s, st).ctx == s.ctx[st.csid := ContextAfter(s, st)]
    ensures Next(s, st).pending
         == if Completes(s, st) then s.pending - {st.csid} else s.pending[st.csid := SentAfter(s, st)]
    ensures Next(s, st).chunkSize == if Completes(s, st) then SizeAfter(s.chunkSize, Current(s, st)) else s.chunkSize
  {
    if st.Continue? { assert s.ctx[st.csid := s.ctx[st.csid]] == s.ctx; }
    hide LegalFormat, ControlOk, NextContext, SentAfter, SizeAfter;
  }

  lemma RemainingNext(s: Sender, st: Step, k: nat)
    requires ValidSender(s) && Legal(s, st)
    ensures Next(s, st).ctx == s.ctx[st.csid := ContextAfter(s, st)]
    ensures Remaining(Next(s, st), k)
         == if k == st.csid then |Current(s, st).data| - SentAfter(s, st) else Remaining(s, k)
  {
    NextParts(s, st);
  }

  lemma AgreesNext(s: Sender, st: Step, streams: Streams, streams': Streams, c: StreamState)
    requires ValidSender(s) && Legal(s, st) && Agrees(s, streams, s.chunkSize)
    requires KnownAfter(s, st, c)
    requires streams' == streams[st.csid := c]
    ensures Agrees(Next(s, st), streams', Next(s, st).chunkSize)
  {
    hide ValidSender, Legal, Next, Remaining, StreamAgrees, ContextAfter, Current, SentAfter;
    var s' := Next(s, st);
    RemainingNext(s, st, st.csid);
    forall k | k in s'.ctx
      ensures StreamAgrees(streams'[k], k, s'.ctx[k], Remaining(s', k))
    {
      RemainingNext(s, st, k);
    }
  }

  // ---- whole runs ----

  /** Reading one more chunk either completes a message or leaves the rest to be received. */
  lemma ReceiveStep(streams: Streams, chunkSize: nat, input: seq<byte>, c: ChunkRead)
    requires ReadChunk(streams, chunkSize, input) == Ok(c)
    ensures
      var m := MessageOf(c.streams[c.key]);
      Receive(streams, chunkSize, input)
      == if c.streams[c.key].remain != 0 then Receive(c.streams, chunkSize, c.rest)
         else if ControlOk(m) then
           [Delivery(c.streams[c.key].csid, m)] + Receive(c.streams, SizeAfter(chunkSize, m), c.rest)
         else []
  {}

  lemma ReceivesStep(s: Sender, st: Step, streams: Streams, rest: seq<byte>) returns (streams': Streams)
    requires ValidSender(s) && Legal(s, st) && Agrees(s, streams, s.chunkSize)
    ensures Agrees(Next(s, st), streams', Next(s, st).chunkSize)
    ensures Receive(streams, s.chunkSize, Emit(s, st) + rest)
         == Finished(s, st) + Receive(streams', Next(s, st).chunkSize, rest)
  {
    streams' := ReadsChunk(s, st, streams, s.chunkSize, rest);
    ReceiveStep(streams, s.chunkSize, Emit(s, st) + rest, ChunkRead(streams', st.csid, rest));
  }

  /**
   Reassembly: whatever the interleaving, the header formats and the chunk size changes of a legal run,
   the reader gets its completed messages, each once, in the order of their last chunks, and goes on with
   the input that follows in a state that agrees with the sender's.
   */
  lemma {:induction false} Reassembles(s: Sender, steps: seq<Step>, streams: Streams, rest: seq<byte>)
    returns (streams': Streams)
    requires ValidSender(s) && LegalRun(s, steps) && Agrees(s, streams, s.chunkSize)
    ensures Agrees(Final(s, steps), streams', Final(s, steps).chunkSize)
    ensures Receive(streams, s.chunkSize, Wire(s, steps) + rest)
         == Completed(s, steps) + Receive(streams', Final(s, steps).chunkSize, rest)
    decreases |steps|
  {
    if steps == [] {
      streams' := streams;
      assert Wire(s, steps) + rest == rest;
    } else {
      var st := steps[0];
      var s1, tail := Next(s, st), steps[1..];
      var streams1 := ReceivesStep(s, st, streams, Wire(s1, tail) + rest);
      streams' := Reassembles(s1, tail, streams1, rest);
      Assoc(Emit(s, st), Wire(s1, tail), rest);
      Assoc(Finished(s, st), Completed(s1, tail), Receive(streams', Final(s1, tail).chunkSize, rest));
    }
  }

  lemma ReassemblesFromStart(steps: seq<Step>)
    requires LegalRun(NewSender, steps)
    ensures Receive(map[], 128, Wire(NewSender, steps)) == Completed(NewSender, steps)
  {
    var streams := Reassembles(NewSender, steps, map[], []);
    assert Wire(NewSender, steps) + [] == Wire(NewSender, steps);
    assert Receive(streams, Final(NewSender, steps).chunkSize, []) == [];
  }

  // ---- every message once, in order on its stream ----

  function OnStream(ds: seq<Delivery>, csid: nat): seq<Message>
  {
    if ds == [] then [] else
      (if ds[0].csid == csid then [ds[0].msg] else []) + OnStream(ds[1..], csid)
  }

  function BegunOn(st: Step, csid: nat): seq<Message>
  { if st.Start? && st.csid == csid then [st.msg] else [] }

  function StartedOn(steps: seq<Step>, csid: nat): seq<Message>
  { if steps == [] then [] else BegunOn(steps[0], csid) + StartedOn(steps[1..], csid) }

  function InFlight(s: Sender, csid: nat): seq<Message>
    requires ValidSender(s)
  { if csid in s.pending then [s.ctx[csid].last] else [] }

  lemma InFlightNext(s: Sender, st: Step, csid: nat)
    requires ValidSender(s) && Legal(s, st)
    ensures InFlight(s, csid) + BegunOn(st, csid) == OnStream(Finished(s, st), csid) + InFlight(Next(s, st), csid)
  {
    NextParts(s, st);
  }

  lemma {:induction false} OnStreamAppend(a: seq<Delivery>, b: seq<Delivery>, csid: nat)
    ensures OnStream(a + b, csid) == OnStream(a, csid) + OnStream(b, csid)
  {
    if a == [] { EmptyUnit(b); } else {
      TailOfAppend(a, b);
      OnStreamAppend(a[1..], b, csid);
      Assoc(if a[0].csid == csid then [a[0].msg] else [], OnStream(a[1..], csid), OnStream(b, csid));
    }
  }

  lemma Exchange<T>(a: seq<T>, b: seq<T>, c: seq<T>, mid: seq<T>, x: seq<T>, y: seq<T>, z: seq<T>)
    requires a + b == x + mid && mid + c == y + z
    ensures a + (b + c) == (x + y) + z
  {
    Assoc(a, b, c);
    Assoc(x, mid, c);
    Assoc(x, y, z);
  }

  /** On every stream the completed messages are the started ones, each once and in order, but for the one in flight. */
  lemma {:induction false} EachMessageOnce(s: Sender, steps: seq<Step>, csid: nat)
    requires ValidSender(s) && LegalRun(s, steps)
    ensures InFlight(s, csid) + StartedOn(steps, csid)
         == OnStream(Completed(s, steps), csid) + InFlight(Final(s, steps), csid)
    decreases |steps|
  {
    if steps == [] {
      EmptyUnit(InFlight(s, csid));
    } else {
      var s1, tail := Next(s, steps[0]), steps[1..];
      EachMessageOnce(s1, tail, csid);
      InFlightNext(s, steps[0], csid);
      OnStreamAppend(Finished(s, steps[0]), Completed(s1, tail), csid);
      Exchange(InFlight(s, csid), BegunOn(steps[0], csid), StartedOn(tail, csid), InFlight(s1, csid),
               OnStream(Finished(s, steps[0]), csid), OnStream(Completed(s1, tail), csid),
               InFlight(Final(s1, tail), csid));
    }
  }

  // ---- header compression ----

  function Plain(steps: seq<Step>): seq<Step>
  {
    if steps == [] then [] else
      [if steps[0].Start? then steps[0].(format := 0) else steps[0]] + Plain(steps[1..])
  }

  predicate SameProgress(s: Sender, p: Sender)
  {
    && s.chunkSize == p.chunkSize && s.pending == p.pending && s.ctx.Keys == p.ctx.Keys
    && forall k | k in s.ctx :: s.ctx[k].last == p.ctx[k].last
  }

  lemma PlainParts(s: Sender, p: Sender, st: Step, q: Step)
    requires ValidSender(s) && ValidSender(p) && SameProgress(s, p) && Legal(s, st)
    requires q == (if st.Start? then st.(format := 0) else st)
    ensures Legal(p, q) && Current(p, q) == Current(s, st) && SentAfter(p, q) == SentAfter(s, st)
    ensures ContextAfter(s, st).last == Current(s, st) && ContextAfter(p, q).last == Current(p, q)
    ensures s.chunkSize == p.chunkSize && s.pending == p.pending && st.csid == q.csid
  {}

  lemma PlainStep(s: Sender, p: Sender, st: Step) returns (q: Step)
    requires ValidSender(s) && ValidSender(p) && SameProgress(s, p) && Legal(s, st)
    ensures q == (if st.Start? then st.(format := 0) else st)
    ensures Legal(p, q) && Finished(p, q) == Finished(s, st) && SameProgress(Next(s, st), Next(p, q))
  {
    q := if st.Start? then st.(format := 0) else st;
    PlainParts(s, p, st, q);
    NextParts(s, st);
    NextParts(p, q);
    hide Next, Legal, ValidSender, SameProgress, ContextAfter, Current, SentAfter;
    SameProgressNext(s, p, Next(s, st), Next(p, q), st.csid, ContextAfter(s, st), ContextAfter(p, q));
  }

  lemma SameProgressNext(s: Sender, p: Sender, s': Sender, p': Sender, csid: nat, c: Context, d: Context)
    requires SameProgress(s, p) && c.last == d.last
    requires s'.ctx == s.ctx[csid := c] && p'.ctx == p.ctx[csid := d]
    requires s'.chunkSize == p'.chunkSize && s'.pending == p'.pending
    ensures SameProgress(s', p')
  {}

  lemma {:induction false} PlainCompletes(s: Sender, p: Sender, steps: seq<Step>)
    requires ValidSender(s) && ValidSender(p) && SameProgress(s, p) && LegalRun(s, steps)
    ensures LegalRun(p, Plain(steps)) && Completed(p, Plain(steps)) == Completed(s, steps)
    decreases |steps|
  {
    if steps != [] {
      var q := PlainStep(s, p, steps[0]);
      PlainCompletes(Next(s, steps[0]), Next(p, q), steps[1..]);
      assert Plain(steps) == [q] + Plain(steps[1..]);
    }
  }

  /** A run with compressed headers is read as the same messages as its encoding with format 0 throughout. */
  lemma CompressionTransparent(steps: seq<Step>)
    requires LegalRun(NewSender, steps)
    ensures LegalRun(NewSender, Plain(steps))
    ensures Receive(map[], 128, Wire(NewSender, steps)) == Receive(map[], 128, Wire(NewSender, Plain(steps)))
  {
    PlainCompletes(NewSender, NewSender, steps);
    ReassemblesFromStart(steps);
    ReassemblesFromStart(Plain(steps));
  }
}
