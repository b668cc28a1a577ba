/** The byte counters behind Acknowledgement messages (RTMP 1.0, section 5.4.3). */
module Acknowledgement {
  import opened Bytes
  import opened ChunkSpec

  const RESTART := 0xf000_0000
  const MAX_WINDOW := 0xef00_0000

  datatype Counters = Counters(window: u32, received: u32, unacked: u32)

  datatype AckStep = AckStep(counters: Counters, ack: seq<u32>)

  function Add32(a: u32, b: nat): u32
  { (a + b) % 0x1_0000_0000 }

  /** Counting one message: the ack list holds the value of the message sent, if one is. */
  function Count(c: Counters, size: nat): AckStep
  {
    var received := Add32(c.received, size);
    var added := Add32(c.unacked, size);
    var unacked := if received >= RESTART && added == received then 0 else added;
    if unacked >= c.window then AckStep(Counters(c.window, received, 0), [unacked])
    else AckStep(Counters(c.window, received, unacked), [])
  }

  function WindowAfter(window: u32, m: Message): u32
    requires ControlOk(m)
  { if m.typeId == ID_WINDOW_ACK_SIZE then ControlValue(m) else window }

  /** A control message takes effect before the message itself, of the given length, is counted. */
  function Counted(c: Counters, m: Message, length: nat): AckStep
    requires ControlOk(m)
  { Count(c.(window := WindowAfter(c.window, m)), length) }

  function Step(c: Counters, m: Message): AckStep
    requires ControlOk(m)
  { Counted(c, m, |m.data|) }

  function Sum(s: seq<nat>): nat
  { if s == [] then 0 else s[0] + Sum(s[1..]) }

  function Total(ms: seq<Message>): nat
  { if ms == [] then 0 else |ms[0].data| + Total(ms[1..]) }

  predicate Countable(m: Message)
  {
    && ControlOk(m) && |m.data| <= 0xffffff
    && (m.typeId == ID_WINDOW_ACK_SIZE ==> ControlValue(m) <= MAX_WINDOW)
  }

  predicate CountableRun(ms: seq<Message>)
  { forall i | 0 <= i < |ms| :: Countable(ms[i]) }

  function Run(c: Counters, ms: seq<Message>): AckStep
    requires CountableRun(ms)
    decreases |ms|
  {
    if ms == [] then AckStep(c, []) else
      assert Countable(ms[0]);
      var s := Step(c, ms[0]);
      var r := Run(s.counters, ms[1..]);
      AckStep(r.counters, s.ack + r.ack)
  }

  predicate Settled(c: Counters)
  { c.window <= MAX_WINDOW && (c.unacked < c.window || c.unacked == 0) }

  /**
   One message adds exactly its size, unless the counter wraps or the restart at 0xf0000000 hits an
   unacknowledged total.
  */
  lemma CountExact(c: Counters, size: nat)
    requires size <= 0xffffff
    ensures
      var s := Count(c, size);
      Sum(s.ack) + s.counters.unacked == c.unacked + size
      <==> c.unacked + size < 0x1_0000_0000
           && !((c.received + size) % 0x1_0000_0000 >= 0xf000_0000
                && (c.received + size) % 0x1_0000_0000 == c.unacked + size)
  {
    var s := Count(c, size);
    if s.ack != [] { assert s.ack[1..] == []; }
  }

  lemma StepSettles(c: Counters, m: Message)
    requires Settled(c) && Countable(m)
    ensures Settled(Step(c, m).counters)
    ensures Sum(Step(c, m).ack) + Step(c, m).counters.unacked == c.unacked + |m.data|
  { CountExact(c.(window := WindowAfter(c.window, m)), |m.data|); }

  lemma {:induction false} SumAppend(a: seq<nat>, b: seq<nat>)
    ensures Sum(a + b) == Sum(a) + Sum(b)
  {
    if a == [] { assert a + b == b; } else {
      assert (a + b)[1..] == a[1..] + b;
      SumAppend(a[1..], b);
    }
  }

  /**
   Conservation: over any run of messages under windows of at most 0xef000000, the acknowledged
   values and the bytes still unacknowledged add up to all bytes received; and after each message
   the unacknowledged count is below the window or zero.
   */
  lemma {:induction false} Conservation(c: Counters, ms: seq<Message>)
    requires Settled(c) && CountableRun(ms)
    ensures Settled(Run(c, ms).counters)
    ensures Sum(Run(c, ms).ack) + Run(c, ms).counters.unacked == c.unacked + Total(ms)
    decreases |ms|
  {
    if ms != [] {
      var s := Step(c, ms[0]);
      StepSettles(c, ms[0]);
      Conservation(s.counters, ms[1..]);
      SumAppend(s.ack, Run(s.counters, ms[1..]).ack);
    }
  }

  // ---- when an acknowledgement goes out ----

  /** What a control message of type 1 or 5 sets: the reader's chunk size or its acknowledgement window. */
  lemma ControlEffect(size: nat, window: u32, m: Message)
    ensures ControlOk(m) <==> (m.typeId == 1 || m.typeId == 5 ==> |m.data| >= 4)
    ensures ControlOk(m) ==> SizeAfter(size, m) == (if m.typeId == 1 then Announced(m.data) else size)
    ensures ControlOk(m) ==> WindowAfter(window, m) == (if m.typeId == 5 then Announced(m.data) else window)
  { if |m.data| >= 4 { ControlValueIs(m); } }

  /** The window in force after some messages: that of the last message of type 5. */
  function WindowIn(window: nat, ms: seq<Message>): nat
    requires CountableRun(ms)
  {
    if ms == [] then window
    else if ms[|ms| - 1].typeId == 5 then Announced(ms[|ms| - 1].data)
    else WindowIn(window, ms[..|ms| - 1])
  }

  /** A message is acknowledged exactly when, with it, the bytes since the last acknowledgement fill the window. */
  lemma AckExact(c: Counters, m: Message)
    requires Settled(c) && Countable(m)
    ensures
      var window := if m.typeId == 5 then Announced(m.data) else c.window;
      Step(c, m).ack == if c.unacked + |m.data| >= window then [c.unacked + |m.data|] else []
  { ControlEffect(0, c.window, m); }

  lemma {:induction false} RunSnoc(c: Counters, ms: seq<Message>, m: Message)
    requires CountableRun(ms) && Countable(m)
    ensures CountableRun(ms + [m])
    ensures
      var before := Run(c, ms);
      var s := Step(before.counters, m);
      Run(c, ms + [m]) == AckStep(s.counters, before.ack + s.ack)
    decreases |ms|
  {
    if ms == [] {
      assert ([] + [m])[1..] == [];
      EmptyUnit(Step(c, m).ack);
    } else {
      var s := Step(c, ms[0]);
      TailOfAppend(ms, [m]);
      RunSnoc(s.counters, ms[1..], m);
      var r := Run(s.counters, ms[1..]);
      Assoc(s.ack, r.ack, Step(r.counters, m).ack);
    }
  }

  lemma {:induction false} WindowOfRun(c: Counters, ms: seq<Message>)
    requires CountableRun(ms)
    ensures Run(c, ms).counters.window == WindowIn(c.window, ms)
  {
    if ms != [] {
      var init, m := ms[..|ms| - 1], ms[|ms| - 1];
      WindowOfRun(c, init);
      RunSnoc(c, init, m);
      assert init + [m] == ms;
      hide Run;
      ControlEffect(0, Run(c, init).counters.window, m);
    }
  }

  /** The count of all bytes wraps at 2^32, and no acknowledgement touches it. */
  lemma {:induction false} ReceivedExact(c: Counters, ms: seq<Message>)
    requires CountableRun(ms)
    ensures Run(c, ms).counters.received == (c.received + Total(ms)) % 0x1_0000_0000
    decreases |ms|
  {
    if ms != [] {
      var s := Step(c, ms[0]);
      ReceivedExact(s.counters, ms[1..]);
      assert s.counters.received == (c.received + |ms[0].data|) % 0x1_0000_0000;
      assert Run(c, ms).counters == Run(s.counters, ms[1..]).counters && Total(ms) == |ms[0].data| + Total(ms[1..]);
      hide *;
      AddWraps(c.received, |ms[0].data|, Total(ms[1..]));
    }
  }

  lemma AddWraps(a: nat, b: nat, c: nat)
    ensures ((a + b) % 0x1_0000_0000 + c) % 0x1_0000_0000 == (a + (b + c)) % 0x1_0000_0000
  {}

  lemma WindowSnoc(window: nat, ms: seq<Message>, m: Message)
    requires CountableRun(ms + [m]) && CountableRun(ms) && Countable(m)
    ensures WindowIn(window, ms + [m]) == if m.typeId == 5 then Announced(m.data) else WindowIn(window, ms)
  { assert (ms + [m])[..|ms|] == ms; }

  /**
   After any run the next message is acknowledged exactly when, with it, the bytes that no acknowledgement
   has covered fill the window then in force, and with their number. So none goes out early or late.
   */
  lemma AcksExact(c: Counters, ms: seq<Message>, m: Message)
    requires Settled(c) && CountableRun(ms) && Countable(m)
    ensures CountableRun(ms + [m])
    ensures
      var acked := Run(c, ms).ack;
      var open := c.unacked + Total(ms) - Sum(acked) + |m.data|;
      Run(c, ms + [m]).ack == acked + if open >= WindowIn(c.window, ms + [m]) then [open] else []
  {
    hide *;
    Conservation(c, ms);
    WindowOfRun(c, ms);
    RunSnoc(c, ms, m);
    WindowSnoc(c.window, ms, m);
    AckExact(Run(c, ms).counters, m);
  }
}
