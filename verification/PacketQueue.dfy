/** The bounded packet queues between a channel and its writers, which drop the oldest packets when full. */
module PacketQueues {
  import opened Bytes

  const DROP_DEFAULT := 128

  datatype Fate = Delivered | Dropped

  /** A packet that has left the queue. */
  datatype Gone<T> = Gone(item: T, fate: Fate)

  /** A queue, with everything ever put in and everything that has left, in order. */
  datatype State<T> = State(items: seq<T>, closed: bool, written: seq<T>, out: seq<Gone<T>>)

  /** The atomic steps of the goroutines around a queue. */
  datatype Action<T> = Send(item: T) | Leave(fate: Fate) | Close

  /** A step that cannot be taken leaves the queue as it is. */
  function Step<T>(cap: nat, s: State<T>, a: Action<T>): State<T>
  {
    match a
    case Send(x) => if s.closed || |s.items| >= cap then s else s.(items := s.items + [x], written := s.written + [x])
    case Leave(fate) => if s.items == [] then s else s.(items := s.items[1..], out := s.out + [Gone(s.items[0], fate)])
    case Close => s.(closed := true)
  }

  function Run<T>(cap: nat, s: State<T>, actions: seq<Action<T>>): State<T>
    decreases |actions|
  { if actions == [] then s else Run(cap, Step(cap, s, actions[0]), actions[1..]) }

  function Items<T>(out: seq<Gone<T>>): (r: seq<T>)
    ensures |r| == |out|
  { if out == [] then [] else Items(out[..|out| - 1]) + [out[|out| - 1].item] }

  function Of<T>(out: seq<Gone<T>>, fate: Fate): seq<T>
  {
    if out == [] then [] else
      var last := out[|out| - 1];
      Of(out[..|out| - 1], fate) + if last.fate == fate then [last.item] else []
  }

  /** What was written is, in order, what has left and what is queued. */
  ghost predicate Conserved<T>(cap: nat, s: State<T>)
  { Items(s.out) + s.items == s.written && |s.items| <= cap }

  lemma StepConserves<T>(cap: nat, s: State<T>, a: Action<T>)
    requires Conserved(cap, s)
    ensures Conserved(cap, Step(cap, s, a))
  {
    match a
    case Send(x) => Assoc(Items(s.out), s.items, [x]);
    case Leave(fate) =>
      if s.items != [] {
        var g := Gone(s.items[0], fate);
        assert (s.out + [g])[..|s.out|] == s.out;
        Assoc(Items(s.out), [s.items[0]], s.items[1..]);
        assert [s.items[0]] + s.items[1..] == s.items;
      }
    case Close =>
  }

  lemma {:induction false} FatesCount<T>(out: seq<Gone<T>>)
    ensures |Of(out, Delivered)| + |Of(out, Dropped)| == |out|
  { if out != [] { FatesCount(out[..|out| - 1]); } }

  /** Under any interleaving of producers, drops and deliveries no packet is lost, repeated or moved. */
  lemma {:induction false} RunConserves<T>(cap: nat, s: State<T>, actions: seq<Action<T>>)
    requires Conserved(cap, s)
    ensures var s' := Run(cap, s, actions);
            && Conserved(cap, s')
            && |Of(s'.out, Delivered)| + |Of(s'.out, Dropped)| + |s'.items| == |s'.written|
    decreases |actions|
  {
    if actions == [] { FatesCount(s.out); } else {
      StepConserves(cap, s, actions[0]);
      RunConserves(cap, Step(cap, s, actions[0]), actions[1..]);
    }
  }

  class PacketQueue<T> {
    const cap: nat
    var items: seq<T>
    var closed: bool
    ghost var written: seq<T>
    ghost var out: seq<Gone<T>>

    ghost function Abs(): State<T>
      reads this
    { State(items, closed, written, out) }

    ghost predicate Valid()
      reads this
    { cap > 0 && Conserved(cap, Abs()) }

    constructor (cap: nat)
      requires cap > 0
      ensures Valid() && this.cap == cap && Abs() == State([], false, [], [])
    { this.cap, items, closed, written, out := cap, [], false, [], []; }

    /** `select { case queue <- p: … default: … }` on an open queue. */
    method TrySend(p: T) returns (sent: bool)
      requires Valid() && !closed
      modifies this
      ensures Valid() && Abs() == Step(cap, old(Abs()), Send(p)) && (sent <==> |old(items)| < cap)
    {
      StepConserves(cap, Abs(), Send(p));
      if |items| >= cap { return false; }
      items, written := items + [p], written + [p];
      sent := true;
    }

    /** A receive that does not wait. */
    method TryReceive(ghost fate: Fate) returns (got: bool)
      requires Valid()
      modifies this
      ensures Valid() && Abs() == Step(cap, old(Abs()), Leave(fate)) && (got <==> old(items) != [])
    {
      StepConserves(cap, Abs(), Leave(fate));
      if items == [] { return false; }
      out := out + [Gone(items[0], fate)];
      items := items[1..];
      got := true;
    }

    /** The packets that have left since `before` and how many of them were dropped. */
    ghost predicate Grew(before: seq<Gone<T>>, drops: nat)
      reads this
    { |before| <= |out| && out[..|before|] == before && |Of(out, Dropped)| == |Of(before, Dropped)| + drops }

    lemma GrewMore(before: seq<Gone<T>>, drops: nat, was: seq<Gone<T>>, g: Gone<T>)
      requires |before| <= |was| && was[..|before|] == before && |Of(was, Dropped)| == |Of(before, Dropped)| + drops
      requires out == was + [g]
      ensures Grew(before, if g.fate.Dropped? then drops + 1 else drops)
    {
      assert (was + [g])[..|was|] == was;
      assert out[..|before|] == was[..|before|];
    }

    /** Whatever the consumer takes between two steps of the producer. */
    method Consumer(ghost before: seq<Gone<T>>, ghost drops: nat) returns (ghost taken: nat)
      requires Valid() && Grew(before, drops)
      modifies this
      ensures Valid() && Grew(before, drops) && written == old(written) && closed == old(closed)
      ensures |items| + taken == |old(items)|
    {
      taken := 0;
      var takes: nat :| true;
      while takes > 0
        invariant Valid() && Grew(before, drops) && written == old(written) && closed == old(closed)
        invariant |items| + taken == |old(items)|
      {
        ghost var was := out;
        var got := TryReceive(Delivered);
        if got {
          GrewMore(before, drops, was, out[|out| - 1]);
          taken := taken + 1;
        }
        takes := takes - 1;
      }
    }

    /**
     Drops up to `dn` of the oldest packets, and fewer only if the queue runs empty; the consumer may take some
     meanwhile, and if it does not, `dn` packets are dropped or all there are.
    */
    method DropNPacket(dn: int, ghost before: seq<Gone<T>>, ghost drops: nat) returns (n: nat, ghost taken: nat)
      requires Valid() && Grew(before, drops)
      modifies this
      ensures Valid() && Grew(before, drops + n) && written == old(written) && closed == old(closed)
      ensures |items| < cap && (0 < dn ==> n <= dn) && (n == dn || items == [])
      ensures |items| + n + taken == |old(items)|
      ensures taken == 0 ==> n == if 0 < dn < |old(items)| then dn else |old(items)|
    {
      n, taken := 0, 0;
      while true
        invariant Valid() && Grew(before, drops + n) && written == old(written) && closed == old(closed)
        invariant (n > 0 ==> |items| < cap) && (0 < dn ==> n < dn)
        invariant |items| + n + taken == |old(items)|
        decreases |items|
      {
        ghost var more := Consumer(before, drops + n);
        taken := taken + more;
        ghost var was := out;
        var got := TryReceive(Dropped);
        if !got { return; }
        GrewMore(before, drops + n, was, out[|out| - 1]);
        n := n + 1;
        if n == dn { return; }
      }
    }

    /**
     A write to an open queue puts the packet in: at once if there is room, and else at the second attempt,
     behind the 128 drops of the oldest packets, or fewer if the queue has run empty.
     */
    method Write(p: T) returns (ok: bool, attempts: nat, ghost drops: nat, ghost taken: nat)
      requires Valid()
      modifies this
      ensures Valid() && closed == old(closed) && (ok <==> !closed)
      ensures !ok ==> Abs() == old(Abs())
      ensures ok ==> written == old(written) + [p] && items != [] && items[|items| - 1] == p
      ensures ok ==> attempts == if |old(items)| < cap then 1 else 2
      ensures ok ==> Grew(old(out), drops) && drops <= 128 && |items| + drops + taken == |old(items)| + 1
      ensures ok && |old(items)| < cap ==> drops == taken == 0
      ensures ok && |old(items)| >= cap && taken == 0 ==> drops == if cap < 128 then cap else 128
    {
      attempts, drops, taken := 0, 0, 0;
      if closed { return false, attempts, drops, taken; }
      ghost var before := out;
      while true
        invariant Valid() && !closed && written == old(written) && Grew(before, drops)
        invariant |items| + drops + taken == |old(items)|
        invariant if attempts == 0 then drops == taken == 0
                  else
                    && attempts == 1 && |items| < cap == |old(items)| && drops <= 128
                    && (taken == 0 ==> drops == if cap < 128 then cap else 128)
        decreases 2 - attempts
      {
        attempts := attempts + 1;
        var sent := TrySend(p);
        if sent {
          return true, attempts, drops, taken;
        }
        var n: nat;
        ghost var more: nat;
        n, more := DropNPacket(DROP_DEFAULT, before, drops);
        drops, taken := drops + n, taken + more;
        more := Consumer(before, drops);
        taken := taken + more;
      }
    }

    /** What the consumer still gets after a close: exactly the queued packets, in order. */
    method Drain()
      requires Valid() && closed
      modifies this
      ensures Valid() && items == [] && written == old(written)
              && Of(out, Delivered) == old(Of(out, Delivered)) + old(items)
    {
      EmptyUnit(Of(out, Delivered));
      ghost var rest := items;
      while items != []
        invariant Valid() && closed && written == old(written)
        invariant Of(out, Delivered) + items == old(Of(out, Delivered)) + rest
        decreases |items|
      {
        ghost var was, x, tail := out, items[0], items[1..];
        var _ := TryReceive(Delivered);
        assert (was + [Gone(x, Delivered)])[..|was|] == was;
        Assoc(Of(was, Delivered), [x], tail);
        assert [x] + tail == [x] + items;
      }
      EmptyUnit(Of(out, Delivered));
    }
  }
}
