/** The consumer side of an RTMP player's queue: packets become messages on one connection. */
module Relay {
  import opened Av
  import opened Bytes
  import opened ChunkSpec
  import opened ChunkProtocol
  import opened ChunkRuns

  function ToMessage(p: Packet): Message
  { Message(p.ts, p.Type(), p.streamId, p.data) }

  function Writes(ps: seq<Packet>): seq<Delivery>
  { if ps == [] then [] else [Delivery(WriteId(ps[0].Type(), 0), ToMessage(ps[0]))] + Writes(ps[1..]) }

  function NonEmpty(ps: seq<Packet>): seq<Packet>
  { if ps == [] then [] else (if ps[0].data == [] then [] else [ps[0]]) + NonEmpty(ps[1..]) }

  /**
   What a peer gets of some packets: all but those without data, video as type 9 and metadata as type 18 on chunk
   stream 6, audio as type 8 on chunk stream 4.
  */
  function Received(ps: seq<Packet>): seq<Delivery>
  {
    if ps == [] then [] else
      var p := ps[0];
      var typeId := if p.isVideo then 9 else if p.isMetadata then 18 else 8;
      (if p.data == [] then []
       else [Delivery(if typeId == 8 then 4 else 6, Message(p.ts, typeId, p.streamId, p.data))]) + Received(ps[1..])
  }

  lemma {:induction false} WritesReceived(ps: seq<Packet>)
    ensures Writes(NonEmpty(ps)) == Received(ps)
  {
    if ps != [] {
      WritesReceived(ps[1..]);
      var more := NonEmpty(ps[1..]);
      if ps[0].data == [] { EmptyUnit(more); } else { assert ([ps[0]] + more)[1..] == more; }
    }
  }

  predicate Short(ps: seq<Packet>)
  { forall i | 0 <= i < |ps| :: |ps[i].data| <= 0xffffff }

  lemma {:induction false} WritesSendable(ps: seq<Packet>, size: nat)
    requires Short(ps) && size >= 4
    ensures SendableRun(Writes(ps)) && SizeAfterRun(size, Writes(ps)) == size
    ensures Written(Writes(ps)) == Writes(NonEmpty(ps))
  {
    if ps != [] {
      var d, rest := Writes(ps)[0], Writes(ps[1..]);
      WritesSendable(ps[1..], size);
      assert Writes(ps) == [d] + rest && ([d] + rest)[1..] == rest;
      assert Sendable(d) && OnWire(d) == d;
      if ps[0].data != [] {
        var more := NonEmpty(ps[1..]);
        assert ([ps[0]] + more)[1..] == more;
      } else {
        EmptyUnit(NonEmpty(ps[1..]));
        EmptyUnit(Written(rest));
      }
    }
  }

  /**
   A peer that reads the connection of a player gets the packets its queue delivered, in order, with
   type, time stamp, stream and data; only packets without data are not sent. The connection may have
   been in use before, and goes on with the same chunk size.
   */
  lemma PlayerReceives(s: Sender, ps: seq<Packet>, streams: Streams, rest: seq<byte>)
    returns (s': Sender, streams': Streams)
    requires AtRest(s) && s.chunkSize >= 4 && Agrees(s, streams, s.chunkSize) && Short(ps)
    ensures SendableRun(Writes(ps)) && AtRest(s') && s'.chunkSize == s.chunkSize && Agrees(s', streams', s.chunkSize)
    ensures Receive(streams, s.chunkSize, WriteRun(s.chunkSize, Writes(ps)) + rest)
         == Received(ps) + Receive(streams', s.chunkSize, rest)
  {
    WritesReceived(ps);
    WritesSendable(ps, s.chunkSize);
    s', streams' := ReceivesRun(s, Writes(ps), streams, rest);
  }

  /** A whole session from a fresh connection: any command dialogue, then the packets. */
  lemma PlayerSession(dialogue: seq<Delivery>, ps: seq<Packet>)
    requires SendableRun(dialogue) && Short(ps)
    ensures SendableRun(Writes(ps))
    ensures Receive(map[], 128, WriteRun(128, dialogue) + WriteRun(SizeAfterRun(128, dialogue), Writes(ps)))
         == Written(dialogue) + Received(ps)
  {
    var size := SizeAfterRun(128, dialogue);
    WritesSendable(ps, size);
    var wire := WriteRun(size, Writes(ps));
    var s, streams := ReceivesRun(NewSender, dialogue, map[], wire);
    var _, streams' := PlayerReceives(s, ps, streams, []);
    EmptyUnit(wire);
    EmptyUnit(Received(ps));
    assert Receive(streams', size, []) == [];
  }
}
