/** What the AMF3 encoder sends for a value, and what the other side gets. */
module Amf3Values {
  import opened Bytes
  import opened Amf3
  import opened Amf3Proofs
  import Amf0

  /** The order of `sort.Strings`. */
  predicate Less(a: Text, b: Text)
  { b != [] && (a == [] || a[0] < b[0] || (a[0] == b[0] && Less(a[1..], b[1..]))) }

  predicate Sorted(xs: seq<Text>)
  { forall i, j | 0 <= i < j < |xs| :: Less(xs[i], xs[j]) }

  lemma {:induction false} LessTotal(a: Text, b: Text)
    ensures Less(a, b) || a == b || Less(b, a)
    ensures !(Less(a, b) && Less(b, a)) && !Less(a, a)
  {
    if a != [] && b != [] {
      LessTotal(a[1..], b[1..]);
      LessTotal(a[1..], a[1..]);
      assert a == [a[0]] + a[1..] && b == [b[0]] + b[1..];
    } else if a != [] { LessTotal(a[1..], a[1..]); }
  }

  lemma {:induction false} LessTrans(a: Text, b: Text, c: Text)
    requires Less(a, b) && Less(b, c)
    ensures Less(a, c)
  { if a != [] && a[0] == b[0] == c[0] { LessTrans(a[1..], b[1..], c[1..]); } }

  function Elements(xs: seq<Text>): set<Text>
  { set i | 0 <= i < |xs| :: xs[i] }

  lemma ElementsTail(xs: seq<Text>)
    requires xs != [] && Sorted(xs)
    ensures Elements(xs[1..]) == Elements(xs) - {xs[0]}
  {
    LessTotal(xs[0], xs[0]);
    forall x ensures x in Elements(xs[1..]) <==> x in Elements(xs) - {xs[0]} {
      if x in Elements(xs[1..]) {
        var i :| 0 <= i < |xs| - 1 && xs[1..][i] == x;
        assert xs[i + 1] == x && Less(xs[0], xs[i + 1]);
      }
      if x in Elements(xs) - {xs[0]} {
        var i :| 0 <= i < |xs| && xs[i] == x;
        assert xs[1..][i - 1] == x;
      }
    }
  }

  lemma HeadsEqual(xs: seq<Text>, ys: seq<Text>)
    requires Sorted(xs) && Sorted(ys) && Elements(xs) == Elements(ys) && xs != [] && ys != []
    ensures xs[0] == ys[0]
  {
    assert xs[0] in Elements(ys) && ys[0] in Elements(xs);
    var i :| 0 <= i < |ys| && ys[i] == xs[0];
    var j :| 0 <= j < |xs| && xs[j] == ys[0];
    LessTotal(xs[0], ys[0]);
  }

  lemma NoElements(xs: seq<Text>)
    ensures Elements(xs) == {} <==> xs == []
  { if xs != [] { assert xs[0] in Elements(xs); } }

  lemma {:induction false} SortedUnique(xs: seq<Text>, ys: seq<Text>)
    requires Sorted(xs) && Sorted(ys) && Elements(xs) == Elements(ys)
    ensures xs == ys
  {
    if xs != [] && ys != [] {
      HeadsEqual(xs, ys);
      ElementsTail(xs);
      ElementsTail(ys);
      SortedUnique(xs[1..], ys[1..]);
      assert xs == [xs[0]] + xs[1..] && ys == [ys[0]] + ys[1..];
    } else {
      NoElements(xs);
      NoElements(ys);
    }
  }

  lemma {:induction false} SortedCount(xs: seq<Text>)
    requires Sorted(xs)
    ensures |Elements(xs)| == |xs|
  {
    if xs != [] {
      ElementsTail(xs);
      SortedCount(xs[1..]);
      assert xs[0] in Elements(xs);
    }
  }

  // ---- what the encoder sends ----

  function InPlaceText(x: Wire): Text
  { match x case Inline(s) => s case Ref(_) => [] }

  function Names(xs: seq<Wire>): (r: seq<Text>)
    ensures |r| == |xs|
  { seq(|xs|, i requires 0 <= i < |xs| => InPlaceText(xs[i])) }

  predicate IsInteger(n: int)
  { 0 <= n < U29_LIMIT }

  /**
   `t` is what the encoder sends for `v`: strings in place, properties sorted and all sealed, integers
   outside 29 bits as doubles, byte slices as arrays of integers. `float64` stands for the conversion.
   */
  predicate Denotes(float64: int -> Amf0.Double, t: Tree, v: Value)
    decreases t
  {
    match v
    case Null => t == TNull
    case Bool(b) => t == TBool(b)
    case Int(n) => if IsInteger(n) then t == TInt(n) else t == TDouble(float64(n))
    case Double(bits) => t == TDouble(bits)
    case Str(s) => t == TStr(Inline(s))
    case Arr(items) =>
      t.TArr? && |t.items| == |items| && forall i | 0 <= i < |items| :: Denotes(float64, t.items[i], items[i])
    case Bytes(bytes) => t.TArr? && |t.items| == |bytes| && forall i | 0 <= i < |bytes| :: t.items[i] == TInt(bytes[i])
    case Obj(cls, props) =>
      && t.TObj? && t.cls == Inline(cls) && !t.dynamic && t.keys == [] && t.extra == [] && |t.values| == |t.names|
      && (forall i | 0 <= i < |t.names| :: t.names[i].Inline?)
      && Sorted(Names(t.names)) && Elements(Names(t.names)) == props.Keys
      && (forall i | 0 <= i < |t.names| ::
            Names(t.names)[i] in props && Denotes(float64, t.values[i], props[Names(t.names)[i]]))
  }

  /** What the decoder returns for it: no class names, no byte slices, and integers as signed. */
  function Received(float64: int -> Amf0.Double, v: Value): Value
  {
    match v
    case Int(n) => if IsInteger(n) then Int(Signed(n)) else Double(float64(n))
    case Arr(items) => Arr(seq(|items|, i requires 0 <= i < |items| => Received(float64, items[i])))
    case Bytes(bytes) => Arr(seq(|bytes|, i requires 0 <= i < |bytes| => Int(bytes[i])))
    case Obj(_, props) => Obj([], map k | k in props :: Received(float64, props[k]))
    case _ => v
  }

  /** Lengths that the 29-bit headers can carry. */
  predicate Small(v: Value)
  {
    match v
    case Str(s) => |s| < 0x1000_0000
    case Arr(items) => |items| < 0x1000_0000 && forall i | 0 <= i < |items| :: Small(items[i])
    case Bytes(bytes) => |bytes| < 0x1000_0000
    case Obj(cls, props) =>
      |cls| < 0x1000_0000 && |props| < 0x200_0000 && forall k | k in props :: |k| < 0x1000_0000 && Small(props[k])
    case _ => true
  }

  /** A count that its header carries, alone or after wrapping in 32 bits. */
  predicate Counted(n: nat)
  { n % 0x8000_0000 < 0x1000_0000 }

  /** The values that are encoded without an error; counts from 2^31 on are cut in their headers. */
  predicate Encodes(v: Value)
  {
    match v
    case Str(s) => Counted(|s|)
    case Arr(items) => Counted(|items|) && forall i | 0 <= i < |items| :: Encodes(items[i])
    case Bytes(bytes) => Counted(|bytes|)
    case Obj(cls, props) =>
      Counted(|cls|) && |props| % 0x1000_0000 < 0x200_0000 && forall k | k in props :: Counted(|k|) && Encodes(props[k])
    case _ => true
  }

  lemma {:induction false} SmallEncodes(v: Value)
    requires Small(v)
    ensures Encodes(v)
  {
    match v
    case Arr(items) => forall i | 0 <= i < |items| ensures Encodes(items[i]) { SmallEncodes(items[i]); }
    case Obj(_, props) => forall k | k in props ensures Encodes(props[k]) { SmallEncodes(props[k]); }
    case _ =>
  }

  /** The values that survive the trip as they are. */
  predicate Kept(v: Value)
  {
    match v
    case Int(n) => 0 <= n <= 0xfff_ffff
    case Arr(items) => forall i | 0 <= i < |items| :: Kept(items[i])
    case Bytes(_) => false
    case Obj(cls, props) => cls == [] && forall k | k in props :: Kept(props[k])
    case _ => true
  }

  lemma {:induction false} ReceivedExact(float64: int -> Amf0.Double, v: Value)
    ensures Received(float64, v) == v <==> Kept(v)
  {
    match v
    case Arr(items) =>
      forall i | 0 <= i < |items| ensures Received(float64, items[i]) == items[i] <==> Kept(items[i]) {
        ReceivedExact(float64, items[i]);
      }
      if Received(float64, v) == v {
        forall i | 0 <= i < |items| ensures Kept(items[i]) { assert Received(float64, v).items[i] == items[i]; }
      }
    case Obj(cls, props) =>
      forall k | k in props ensures Received(float64, props[k]) == props[k] <==> Kept(props[k]) {
        ReceivedExact(float64, props[k]);
      }
      if Received(float64, v) == v {
        forall k | k in props ensures Kept(props[k]) { assert Received(float64, v).props[k] == props[k]; }
      }
    case _ =>
  }

  /** The encoder has no choice: a value has one wire form. */
  lemma {:induction false} OneForm(float64: int -> Amf0.Double, t1: Tree, t2: Tree, v: Value)
    requires Denotes(float64, t1, v) && Denotes(float64, t2, v)
    ensures t1 == t2
    decreases t1
  {
    match v
    case Arr(items) =>
      forall i | 0 <= i < |items| ensures t1.items[i] == t2.items[i] {
        OneForm(float64, t1.items[i], t2.items[i], items[i]);
      }
      assert t1.items == t2.items;
    case Bytes(bytes) => assert t1.items == t2.items;
    case Obj(cls, props) =>
      SortedUnique(Names(t1.names), Names(t2.names));
      assert forall i | 0 <= i < |t1.names| ::
          t1.names[i] == Inline(Names(t1.names)[i]) && t2.names[i] == Inline(Names(t2.names)[i]);
      assert t1.names == t2.names;
      forall i | 0 <= i < |t1.values| ensures t1.values[i] == t2.values[i] {
        OneForm(float64, t1.values[i], t2.values[i], props[Names(t1.names)[i]]);
      }
      assert t1.values == t2.values;
    case _ =>
  }

  // ---- the round trip of a value ----

  lemma {:induction false} NamesMean(xs: seq<Wire>, refs: Refs)
    requires forall i | 0 <= i < |xs| :: xs[i].Inline? && |xs[i].s| < 0x1000_0000
    ensures ResolvesAll(xs, refs) && Texts(xs, refs) == Names(xs)
  {
    if xs != [] {
      NamesMean(xs[1..], refs + Adds(xs[0]));
      assert Names(xs) == [xs[0].s] + Names(xs[1..]);
    }
  }

  lemma ElementsCons(xs: seq<Text>)
    requires xs != []
    ensures Elements(xs) == {xs[0]} + Elements(xs[1..])
  {
    forall x | x in Elements(xs) ensures x in {xs[0]} + Elements(xs[1..]) {
      var i :| 0 <= i < |xs| && xs[i] == x;
      if i > 0 { assert xs[1..][i - 1] == x; }
    }
    forall x | x in Elements(xs[1..]) ensures x in Elements(xs) {
      var i :| 0 <= i < |xs[1..]| && xs[1..][i] == x;
      assert xs[i + 1] == x;
    }
  }

  function Restrict(want: map<Text, Value>, keys: set<Text>): map<Text, Value>
  { map k | k in want && k in keys :: want[k] }

  lemma RestrictCons(want: map<Text, Value>, acc: map<Text, Value>, k: Text, keys: set<Text>)
    requires k in want
    ensures acc[k := want[k]] + Restrict(want, keys) == acc + Restrict(want, {k} + keys)
  {}

  lemma {:induction false} SealedAt(names: seq<Text>, ts: seq<Tree>, refs: Refs, acc: map<Text, Value>,
        want: map<Text, Value>)
    requires |names| == |ts| && FitsAll(ts, refs)
    requires forall i | 0 <= i < |names| :: names[i] in want && Meanings(ts, refs)[i] == want[names[i]]
    ensures Sealed(names, ts, refs, acc) == acc + Restrict(want, Elements(names))
    decreases ts
  {
    if ts != [] {
      var m, r1 := Meanings(ts, refs), refs + Inlined(ts[0]);
      assert m[0] == want[names[0]] && m[1..] == Meanings(ts[1..], r1);
      forall i | 0 <= i < |names[1..]|
        ensures names[1..][i] in want && Meanings(ts[1..], r1)[i] == want[names[1..][i]]
      {
        assert m[1..][i] == m[i + 1] && names[1..][i] == names[i + 1];
      }
      SealedAt(names[1..], ts[1..], r1, acc[names[0] := want[names[0]]], want);
      ElementsCons(names);
      assert Meaning(ts[0], refs) == want[names[0]];
      hide Elements, Meaning, Restrict;
      RestrictCons(want, acc, names[0], Elements(names[1..]));
    } else { NoElements(names); }
  }

  lemma {:induction false} ItemsMean(float64: int -> Amf0.Double, ts: seq<Tree>, vs: seq<Value>, refs: Refs)
    requires |ts| == |vs| && forall i | 0 <= i < |ts| :: Denotes(float64, ts[i], vs[i]) && Small(vs[i])
    ensures FitsAll(ts, refs)
    ensures forall i | 0 <= i < |ts| :: Meanings(ts, refs)[i] == Received(float64, vs[i])
    decreases ts, 0
  {
    if ts != [] {
      ValueMeans(float64, ts[0], vs[0], refs);
      ItemsMean(float64, ts[1..], vs[1..], refs + Inlined(ts[0]));
    }
  }

  lemma {:induction false} BytesMean(ts: seq<Tree>, bytes: seq<byte>, refs: Refs)
    requires |ts| == |bytes| && forall i | 0 <= i < |ts| :: ts[i] == TInt(bytes[i])
    ensures FitsAll(ts, refs) && forall i | 0 <= i < |ts| :: Meanings(ts, refs)[i] == Int(bytes[i])
  { if ts != [] { BytesMean(ts[1..], bytes[1..], refs + Inlined(ts[0])); } }

  /** What is sent for a value has headers that fit, and is read as the received value, behind any table. */
  lemma {:induction false} ValueMeans(float64: int -> Amf0.Double, t: Tree, v: Value, refs: Refs)
    requires Denotes(float64, t, v) && Small(v)
    ensures Fits(t, refs) && Meaning(t, refs) == Received(float64, v)
    decreases t, 1
  {
    match v
    case Arr(items) =>
      ItemsMean(float64, t.items, items, refs);
      assert Meanings(t.items, refs) == Received(float64, v).items;
    case Bytes(bytes) =>
      BytesMean(t.items, bytes, refs);
      assert Meanings(t.items, refs) == Received(float64, v).items;
    case Obj(cls, props) => ObjectMeansReceived(float64, t, v, refs);
    case _ =>
  }

  lemma {:induction false} ObjectMeansReceived(float64: int -> Amf0.Double, t: Tree, v: Value, refs: Refs)
    requires v.Obj? && Denotes(float64, t, v) && Small(v)
    ensures Fits(t, refs) && Meaning(t, refs) == Received(float64, v)
    decreases t, 0
  {
    ObjectDenotes(float64, t, v);
    assert Received(float64, v) == Obj([], Wanted(float64, v));
    hide *;
    var names := Names(t.names);
    var r1 := refs + Adds(t.cls);
    var r2 := r1 + AddsAll(t.names);
    var vs := seq(|names|, i requires 0 <= i < |names| => if names[i] in v.props then v.props[names[i]] else Null);
    NamesMean(t.names, r1);
    ItemsMean(float64, t.values, vs, r2);
    InPlaceObject(t, refs);
    forall i | 0 <= i < |names|
      ensures names[i] in Wanted(float64, v) && Meanings(t.values, r2)[i] == Wanted(float64, v)[names[i]]
    { WantedAt(float64, v, names[i]); }
    SealedAt(names, t.values, r2, map[], Wanted(float64, v));
    WantedAll(float64, v);
  }

  function Wanted(float64: int -> Amf0.Double, v: Value): map<Text, Value>
    requires v.Obj?
  { map k | k in v.props :: Received(float64, v.props[k]) }

  lemma WantedAt(float64: int -> Amf0.Double, v: Value, k: Text)
    requires v.Obj? && k in v.props
    ensures k in Wanted(float64, v) && Wanted(float64, v)[k] == Received(float64, v.props[k])
  {}

  lemma WantedAll(float64: int -> Amf0.Double, v: Value)
    requires v.Obj?
    ensures map[] + Restrict(Wanted(float64, v), v.props.Keys) == Wanted(float64, v)
  {}

  lemma InPlaceObject(t: Tree, refs: Refs)
    requires t.TObj? && !t.dynamic && |t.names| == |t.values| < 0x200_0000 && Resolves(t.cls, refs)
    requires ResolvesAll(t.names, refs + Adds(t.cls)) && FitsAll(t.values, refs + Adds(t.cls) + AddsAll(t.names))
    ensures Fits(t, refs)
    ensures var r1 := refs + Adds(t.cls);
            Meaning(t, refs) == Obj([], Sealed(Texts(t.names, r1), t.values, r1 + AddsAll(t.names), map[]))
  { FitsFrom(t, refs); ObjectMeans(t, refs); }

  lemma ObjectDenotes(float64: int -> Amf0.Double, t: Tree, v: Value)
    requires v.Obj? && Denotes(float64, t, v) && Small(v)
    ensures t.TObj? && !t.dynamic && |t.values| == |t.names| < 0x200_0000 && forall refs :: Resolves(t.cls, refs)
    ensures forall i | 0 <= i < |t.names| :: t.names[i].Inline? && |t.names[i].s| < 0x1000_0000
    ensures Elements(Names(t.names)) == v.props.Keys
    ensures forall i | 0 <= i < |t.names| :: Names(t.names)[i] in v.props
    ensures forall i | 0 <= i < |t.names| ::
              Denotes(float64, t.values[i], v.props[Names(t.names)[i]]) && Small(v.props[Names(t.names)[i]])
  {
    SortedCount(Names(t.names));
    forall i | 0 <= i < |t.names| ensures |t.names[i].s| < 0x1000_0000 { assert Names(t.names)[i] in v.props; }
  }

  /**
   For every value with small enough parts, decoding what was sent for it gives the received value and
   leaves the rest of the input untouched.
   */
  lemma ValueRoundTrip(float64: int -> Amf0.Double, strict: bool, t: Tree, v: Value, refs: Refs, rest: seq<byte>)
    requires Denotes(float64, t, v) && Small(v) && (!strict || rest != [])
    ensures Encode(t).Ok? && var r := Decode(strict, refs, Encode(t).value + rest);
            r.Ok? && r.value.val == Received(float64, v) && r.value.rest == rest
  {
    ValueMeans(float64, t, v, refs);
    RoundTrip(strict, t, refs, rest);
    hide Fits, Meaning, Encode, Decode, Inlined;
  }
}
