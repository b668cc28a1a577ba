/** Publishing to players, some of which join late (`server/channel.go`, `cache`). */
module Channels {
  import opened Bytes
  import opened Replay
  import FlvTag

  /** What a writer has taken, and whether it is closed. */
  datatype Log = Log(received: seq<Ref>, closed: bool)

  /** Whether a writer that fails after `accepts` packets takes all of `ps`. */
  predicate Takes(accepts: nat, log: Log, ps: seq<Ref>)
  { ps == [] || (!log.closed && |log.received| + |ps| <= accepts) }

  function Taken(log: Log, ps: seq<Ref>): Log
  { log.(received := log.received + ps) }

  /** A player's writer; it takes `accepts` packets and then fails, as a broken connection does. */
  class Player {
    var log: Log
    const accepts: nat

    constructor (accepts: nat)
      ensures log == Log([], false) && this.accepts == accepts
    { log, this.accepts := Log([], false), accepts; }

    method Write(p: Ref) returns (ok: bool)
      modifies this
      ensures ok == Takes(accepts, old(log), [p])
      ensures log == if ok then Taken(old(log), [p]) else old(log)
    {
      ok := !log.closed && |log.received| < accepts;
      if ok { log := Log(log.received + [p], false); }
    }

    method Close()
      modifies this
      ensures log == old(log).(closed := true)
    { log := log.(closed := true); }
  }

  class GopArray {
    var packets: seq<Ref>
    var isComplete: bool

    ghost function Abs(): Gop
      reads this
    { Gop(packets, isComplete) }

    constructor ()
      ensures Abs() == Gop([], false)
    { packets, isComplete := [], false; }

    method Reset()
      modifies this
      ensures Abs() == Gop([], false)
    { packets, isComplete := [], false; }

    /** Fails, and drops the packet, once the group is full. */
    method Write(p: Ref) returns (ok: bool)
      modifies this
      ensures Abs() == GopWrite(old(Abs()), p) && (ok <==> |old(packets)| < MAX_GOP)
    {
      if |packets| >= MAX_GOP { return false; }
      var isKeyFrame := p.tag.IsKeyFrame();
      if !isComplete && !isKeyFrame { return true; }
      if isKeyFrame {
        Reset();
        isComplete := true;
      }
      packets := packets + [p];
      ok := true;
    }

    method Send(w: Player) returns (ok: bool)
      modifies w
      ensures var ps := if isComplete then packets else [];
              ok == Takes(w.accepts, old(w.log), ps) && w.log.closed == old(w.log.closed)
                && (ok ==> w.log == Taken(old(w.log), ps))
    {
      EmptyUnit(w.log.received);
      if !isComplete { return true; }
      assert packets[..0] == [];
      for i := 0 to |packets|
        invariant w.log == Taken(old(w.log), packets[..i])
        invariant i > 0 ==> !w.log.closed && |w.log.received| <= w.accepts
      {
        ok := w.Write(packets[i]);
        if !ok { return; }
        assert packets[..i + 1] == packets[..i] + [packets[i]];
        Assoc(old(w.log.received), packets[..i], [packets[i]]);
      }
      assert packets[..|packets|] == packets;
      ok := true;
    }
  }

  class SpecialCache {
    var p: Option<Ref>

    constructor ()
      ensures p == None
    { p := None; }

    method Write(q: Ref)
      modifies this
      ensures p == Some(q)
    { p := Some(q); }

    method Send(w: Player) returns (ok: bool)
      modifies w
      ensures ok == Takes(w.accepts, old(w.log), One(p)) && w.log.closed == old(w.log.closed)
      ensures ok ==> w.log == Taken(old(w.log), One(p))
    {
      EmptyUnit(w.log.received);
      if p.None? { return true; }
      ok := w.Write(p.value);
    }
  }

  class Cache {
    const gop: GopArray
    const videoSeq: SpecialCache
    const audioSeq: SpecialCache
    const metadata: SpecialCache

    ghost predicate Valid()
    { videoSeq != audioSeq && videoSeq != metadata && audioSeq != metadata }

    ghost function Repr(): set<object>
    { {gop, videoSeq, audioSeq, metadata} }

    ghost function Abs(): Caches
      reads Repr()
    { Caches(metadata.p, videoSeq.p, audioSeq.p, gop.Abs()) }

    constructor ()
      ensures Valid() && fresh(Repr()) && Abs() == CacheOf([])
    {
      gop := new GopArray();
      videoSeq := new SpecialCache();
      audioSeq := new SpecialCache();
      metadata := new SpecialCache();
    }

    method Write(p: Ref)
      requires Valid()
      modifies Repr()
      ensures Abs() == CacheWrite(old(Abs()), p)
    {
      if p.packet.isMetadata {
        metadata.Write(p);
      } else if p.packet.isAudio {
        if p.tag.soundFormat == FlvTag.SOUND_AAC && p.tag.aacPacketType == FlvTag.AAC_SEQHDR { audioSeq.Write(p); }
      } else if p.tag.IsSeq() {
        videoSeq.Write(p);
      } else {
        var _ := gop.Write(p);
      }
    }

    method Send(w: Player) returns (ok: bool)
      requires Valid()
      modifies w
      ensures ok == Takes(w.accepts, old(w.log), Replayed(Abs()))
              && (ok ==> w.log == Taken(old(w.log), Replayed(Abs())))
    {
      ghost var a, b, c := One(metadata.p), One(videoSeq.p), One(audioSeq.p);
      ghost var d := if gop.isComplete then gop.packets else [];
      ghost var r := w.log.received;
      assert Replayed(Abs()) == a + b + c + d;
      ok := metadata.Send(w);
      if !ok { return; }
      ok := videoSeq.Send(w);
      if !ok { return; }
      ok := audioSeq.Send(w);
      if !ok { return; }
      ok := gop.Send(w);
      if !ok { return; }
      Assoc(r, a, b);
      Assoc(r, a + b, c);
      Assoc(r, a + b + c, d);
    }
  }

  /** When a player joined, and what it had received before. */
  datatype Joined = Joined(at: nat, base: seq<Ref>)

  class Channel {
    var inPublication: bool
    var players: map<Player, bool>
    var cache: Cache

    ghost var history: seq<Ref>
    ghost var joined: map<Player, Joined>

    ghost function Repr(): set<object>
      reads this
    { {this} + cache.Repr() }

    /** What a player has received is what the cache held when it was first served, and every packet since. */
    static ghost predicate Served(j: Joined, inited: bool, log: Log, h: seq<Ref>)
    { j.at <= |h| && (inited <==> j.at < |h|) && log.received == j.base + Sent(h, j.at) }

    ghost predicate Valid()
      reads this, cache.Repr(), players.Keys
    {
      && cache.Valid() && cache.Abs() == CacheOf(history)
      && (!inPublication ==> players == map[])
      && forall w | w in players :: w in joined && Served(joined[w], players[w], w.log, history)
    }

    constructor ()
      ensures Valid() && !inPublication && fresh(Repr())
    {
      inPublication, players, history, joined := false, map[], [], map[];
      cache := new Cache();
    }

    /** The start of a publication; there is at most one. */
    method PushBegin() returns (ok: bool)
      requires Valid()
      modifies this
      ensures Valid() && fresh(Repr() - old(Repr())) && inPublication && (ok <==> !old(inPublication))
      ensures ok ==> history == [] && players == map[]
      ensures !ok ==> unchanged(this)
    {
      if inPublication { return false; }
      inPublication := true;
      cache := new Cache();
      history := [];
      ok := true;
    }

    /** The end of a publication closes every player. */
    method PushEnd()
      requires Valid()
      modifies this, players.Keys
      ensures Valid() && !inPublication && players == map[] && forall w | w in old(players) :: w.log.closed
    {
      KickAllPlayers();
      inPublication := false;
    }

    method KickAllPlayers()
      requires Valid()
      modifies this`players, players.Keys
      ensures Valid() && players == map[] && forall w | w in old(players) :: w.log.closed
    {
      var todo := players.Keys;
      ghost var all := players.Keys;
      while todo != {}
        invariant todo <= all && players.Keys == todo
        invariant forall w | w in all && w !in todo :: w.log.closed
        decreases todo
      {
        var w :| w in todo;
        players, todo := players - {w}, todo - {w};
        w.Close();
      }
    }

    method AddPlayer(w: Player) returns (ok: bool)
      requires Valid()
      modifies this`players, this`joined
      ensures Valid() && (ok <==> inPublication && w !in old(players))
      ensures players == if ok then old(players)[w := false] else old(players)
      ensures ok ==> w in joined && joined[w] == Joined(|history|, w.log.received)
      ensures forall v | v in old(players) :: v in joined && v in old(joined) && joined[v] == old(joined)[v]
    {
      if !inPublication || w in players { return false; }
      players, joined := players[w := false], joined[w := Joined(|history|, w.log.received)];
      EmptyUnit(w.log.received);
      ok := true;
    }

    method DelPlayer(w: Player) returns (loaded: bool)
      requires Valid()
      modifies this`players, w
      ensures Valid() && loaded == (w in old(players)) && players == old(players) - {w}
      ensures w.log == if loaded then old(w.log).(closed := true) else old(w.log)
    {
      loaded := w in players;
      if loaded {
        players := players - {w};
        w.Close();
      }
    }

    /** What is written to a player, inited or not, when the cache has taken `p`. */
    static ghost function Due(inited: bool, p: Ref, c: Caches): seq<Ref>
    { if inited then [p] else Replayed(c) }

    /** A player that was due `ps` is kept exactly if it takes them all, and is closed otherwise. */
    static predicate Outcome(accepts: nat, was: Log, now: Log, ps: seq<Ref>, kept: bool)
    { kept == Takes(accepts, was, ps) && if kept then now == Taken(was, ps) else now.closed }

    /** One player gets the cache or the packet; if its writer fails it is closed. */
    method Serve(w: Player, inited: bool, p: Ref) returns (ok: bool)
      requires cache.Valid()
      modifies w
      ensures Outcome(w.accepts, old(w.log), w.log, Due(inited, p, cache.Abs()), ok)
    {
      if !inited {
        ok := cache.Send(w);
      } else {
        ok := w.Write(p);
      }
      if !ok { w.Close(); }
    }

    /** One player is served, and stays in the map, inited, exactly if its writer took what was due. */
    method ServeOne(w: Player, p: Ref)
      requires cache.Valid() && w in players
      modifies this`players, w
      ensures Outcome(w.accepts, old(w.log), w.log, Due(old(players)[w], p, cache.Abs()), w in players)
      ensures players == if w in players then old(players)[w := true] else old(players) - {w}
    {
      var ok := Serve(w, players[w], p);
      players := if ok then players[w := true] else players - {w};
    }

    /** Every player is served once, in any order; those whose writers fail are removed. */
    method ServeAll(p: Ref)
      requires cache.Valid()
      modifies this`players, players.Keys
      ensures players.Keys <= old(players).Keys && forall w | w in players :: players[w]
      ensures forall w | w in old(players) ::
                Outcome(w.accepts, old(w.log), w.log, Due(old(players)[w], p, cache.Abs()), w in players)
    {
      var todo := players.Keys;
      ghost var flags, c := players, cache.Abs();
      hide Due, Outcome, Cache.Abs, Cache.Valid;
      while todo != {}
        invariant todo <= players.Keys <= flags.Keys && cache.Valid() && cache.Abs() == c
        invariant forall w | w in todo :: players[w] == flags[w] && w.log == old(w.log)
        invariant forall w | w in flags && w !in todo ::
                    Outcome(w.accepts, old(w.log), w.log, Due(flags[w], p, c), w in players)
                      && (w in players ==> players[w])
        decreases todo
      {
        var w :| w in todo;
        ServeOne(w, p);
        todo := todo - {w};
      }
    }

    /** A player is kept exactly if its open writer takes the packet, or the cache at first, and is closed otherwise. */
    static lemma OutcomeIs(accepts: nat, was: Log, now: Log, inited: bool, p: Ref, c: Caches, kept: bool)
      ensures
        Outcome(accepts, was, now, Due(inited, p, c), kept) <==>
        var due := if inited then [p] else Replayed(c);
        && (kept <==> due == [] || (!was.closed && |was.received| + |due| <= accepts))
        && if kept then now == Log(was.received + due, was.closed) else now.closed
    { hide Replayed; }

    lemma StaysServed(h: seq<Ref>, p: Ref, j: Joined, inited: bool, accepts: nat, was: Log, now: Log)
      requires Served(j, inited, was, h) && Outcome(accepts, was, now, Due(inited, p, CacheOf(h + [p])), true)
      ensures Served(j, true, now, h + [p])
    {
      SentSnoc(h, p, j.at);
      Assoc(j.base, Sent(h, j.at), [p]);
      EmptyUnit(j.base);
    }

    method Store(p: Ref)
      requires cache.Valid() && cache.Abs() == CacheOf(history)
      modifies this`history, cache.Repr()
      ensures history == old(history) + [p] && cache.Abs() == CacheOf(history)
    {
      cache.Write(p);
      assert (history + [p])[..|history|] == history;
      history := history + [p];
    }

    /** One packet goes to the cache and to every player. */
    method Publish(p: Ref)
      requires Valid() && inPublication
      modifies this`players, this`history, cache.Repr(), players.Keys
      ensures Valid() && inPublication && history == old(history) + [p]
      ensures players.Keys <= old(players).Keys
      ensures forall w | w in old(players) ::
                Outcome(w.accepts, old(w.log), w.log, Due(old(players)[w], p, CacheOf(history)), w in players)
    {
      hide CacheOf, Due, Outcome, Served;
      Store(p);
      ServeAll(p);
      forall w | w in players ensures Served(joined[w], true, w.log, history) {
        assert Outcome(w.accepts, old(w.log), w.log, Due(old(players)[w], p, CacheOf(history)), true);
        StaysServed(old(history), p, joined[w], old(players)[w], w.accepts, old(w.log), w.log);
      }
    }
  }
}
