/** The AMF3 codec gives back what was written, whichever strings were sent as references. */
module Amf3Proofs {
  import opened Bytes
  import opened Amf3
  import Amf0
  import Amf0Proofs

  // ---- variable-length integers ----

  /** The integer codec is an inverse pair on all 29-bit values. */
  lemma U29Back(v: nat, rest: seq<byte>)
    requires v < U29_LIMIT
    ensures DecodeU29(EncodeU29(v).value + rest) == Ok(Parsed(v, rest))
  {
    var e := EncodeU29(v).value;
    var s := e + rest;
    assert s[|e|..] == rest;
    if v < 0x80 {
    } else if v < 0x4000 {
      TwoBack(v, s, rest);
    } else if v < 0x20_0000 {
      ThreeBack(v, s, rest);
    } else {
      FourBack(v, s, rest);
    }
  }

  lemma TwoBack(v: nat, s: seq<byte>, rest: seq<byte>)
    requires 0x80 <= v < 0x4000 && s == EncodeU29(v).value + rest
    ensures DecodeU29(s) == Ok(Parsed(v, rest))
  {
    assert s[1..][1..] == rest;
    assert DecodeU29From(1, v / 0x80, s[1..]) == Ok(Parsed(v, rest));
  }

  lemma ThreeBack(v: nat, s: seq<byte>, rest: seq<byte>)
    requires 0x4000 <= v < 0x20_0000 && s == EncodeU29(v).value + rest
    ensures DecodeU29(s) == Ok(Parsed(v, rest))
  {
    assert s[1..][1..] == s[2..] && s[2..][1..] == rest;
    assert DecodeU29From(2, v / 0x80, s[2..]) == Ok(Parsed(v, rest));
    assert v / 0x4000 * 128 + v / 0x80 % 0x80 == v / 0x80;
    assert DecodeU29From(1, v / 0x4000, s[1..]) == DecodeU29From(2, v / 0x80, s[2..]);
  }

  lemma Digits(v: nat)
    requires v < U29_LIMIT
    ensures v / 0x40_0000 < 0x80 && v / 0x8000 == v / 0x40_0000 * 128 + v / 0x8000 % 0x80
    ensures v / 0x100 == v / 0x8000 * 128 + v / 0x100 % 0x80 && v == v / 0x100 * 256 + v % 0x100
  {}

  lemma FourBack(v: nat, s: seq<byte>, rest: seq<byte>)
    requires 0x20_0000 <= v < U29_LIMIT && s == EncodeU29(v).value + rest
    ensures DecodeU29(s) == Ok(Parsed(v, rest))
  {
    assert s[1..][1..] == s[2..] && s[2..][1..] == s[3..] && s[3..][1..] == rest;
    Digits(v);
    var a, b, c := v / 0x40_0000, v / 0x8000 % 0x80, v / 0x100 % 0x80;
    assert s[0] == a + 0x80 && s[1..][0] == b + 0x80 && s[2..][0] == c + 0x80 && s[3..][0] == v % 0x100;
    hide DecodeU29From, EncodeU29;
    U29Step(0, 0, s);
    U29Step(1, a, s[1..]);
    U29Step(2, v / 0x8000, s[2..]);
    U29Step(3, v / 0x100, s[3..]);
  }

  /** No other form of an integer is shorter. */
  lemma U29Shortest(s: seq<byte>)
    requires DecodeU29(s).Ok?
    ensures var p := DecodeU29(s).value; p.val < U29_LIMIT && |EncodeU29(p.val).value| <= |s| - |p.rest|
  {
    if s[0] >= 0x80 && s[1] >= 0x80 { assert s[1..][1..] == s[2..]; }
  }

  // ---- strings ----

  lemma ReadBack(strict: bool, a: seq<byte>, rest: seq<byte>)
    requires !strict || rest != []
    ensures ReadPadded(strict, |a|, a + rest) == Ok(Parsed(a, rest))
  {
    assert (a + rest)[..|a|] == a && (a + rest)[|a|..] == rest;
    if a + rest == [] { assert a == [] && rest == []; }
  }

  lemma BytesBack(strict: bool, b: seq<byte>, rest: seq<byte>)
    requires |b| < 0x1000_0000 && (!strict || rest != [])
    ensures EncodeU29(InPlace(|b|)).Ok?
    ensures DecodeBytes(strict, EncodeU29(InPlace(|b|)).value + b + rest) == Ok(Parsed(b, rest))
  {
    InPlaceCount(|b|);
    var h := EncodeU29(InPlace(|b|)).value;
    hide EncodeU29, DecodeU29, InPlace;
    U29Back(InPlace(|b|), b + rest);
    Assoc(h, b, rest);
    ReadBack(strict, b, rest);
  }

  lemma WireBack(strict: bool, x: Wire, refs: Refs, rest: seq<byte>)
    requires Resolves(x, refs) && (!strict || rest != [])
    ensures EncodeWire(x).Ok?
    ensures DecodeText(strict, refs, EncodeWire(x).value + rest) == Ok(Step(TextOf(x, refs), refs + Adds(x), rest))
  {
    EmptyUnit(refs);
    match x
    case Inline(s) =>
      InPlaceCount(|s|);
      var h := EncodeU29(InPlace(|s|)).value;
      hide EncodeU29, DecodeU29, InPlace;
      U29Back(InPlace(|s|), s + rest);
      Assoc(h, s, rest);
      ReadBack(strict, s, rest);
    case Ref(i) =>
      assert 2 * i < U29_LIMIT && 2 * i % 2 == 0 && 2 * i / 2 == i;
      hide EncodeU29, DecodeU29;
      U29Back(2 * i, rest);
  }

  /** A string cut short by the end of the input is an error only if nothing of it is left; else zeros complete it. */
  lemma ShortString(strict: bool, refs: Refs, n: nat, s: seq<byte>)
    requires |s| < n < 0x1000_0000
    ensures EncodeU29(InPlace(n)).Ok?
    ensures var r := DecodeText(strict, refs, EncodeU29(InPlace(n)).value + s);
            if s == [] then r == Err(Eof)
            else
              && r.Ok? && |r.value.val| == n && r.value.val[..|s|] == s && r.value.rest == []
              && forall i | |s| <= i < n :: r.value.val[i] == 0
  {
    InPlaceCount(n);
    hide EncodeU29, DecodeU29, InPlace;
    U29Back(InPlace(n), s);
  }

  lemma {:induction false} NamesBack(strict: bool, xs: seq<Wire>, refs: Refs, rest: seq<byte>, acc: seq<Text>)
    requires ResolvesAll(xs, refs) && (!strict || rest != [])
    ensures EncodeWires(xs).Ok?
    ensures DecodeNames(strict, refs, |xs|, EncodeWires(xs).value + rest, acc)
            == Ok(Step(acc + Texts(xs, refs), refs + AddsAll(xs), rest))
  {
    if xs == [] { EmptyUnit(rest); EmptyUnit(refs); EmptyUnit(acc); } else {
      NamesBack(strict, xs[1..], refs + Adds(xs[0]), rest, acc + [TextOf(xs[0], refs)]);
      var a, b := EncodeWire(xs[0]), EncodeWires(xs[1..]);
      WireBack(strict, xs[0], refs, b.value + rest);
      Assoc(a.value, b.value, rest);
      Assoc(refs, Adds(xs[0]), AddsAll(xs[1..]));
      Assoc(acc, [TextOf(xs[0], refs)], Texts(xs[1..], refs + Adds(xs[0])));
    }
  }

  // ---- values ----

  /** `t` is read back behind any table and before any rest. */
  ghost predicate Back(strict: bool, t: Tree, refs: Refs, rest: seq<byte>)
    requires Fits(t, refs)
  {
    && Encode(t).Ok?
    && Decode(strict, refs, Encode(t).value + rest) == Ok(Step(Meaning(t, refs), refs + Inlined(t), rest))
  }

  lemma IntBack(strict: bool, n: nat, refs: Refs, rest: seq<byte>)
    requires n < U29_LIMIT
    ensures Back(strict, TInt(n), refs, rest)
  {
    EmptyUnit(refs);
    Marked(strict, refs, INTEGER, EncodeU29(n).value, rest);
    U29Back(n, rest);
    hide EncodeU29, DecodeU29, Decode;
  }

  /** An integer can be sent in 29 bits, comes back as sent exactly below 2^28, and reduced by 2^29 from there on. */
  lemma IntegerExact(strict: bool, n: nat, refs: Refs, rest: seq<byte>)
    ensures Encode(TInt(n)).Ok? <==> n < U29_LIMIT
    ensures
      n < U29_LIMIT ==>
        var back := Decode(strict, refs, Encode(TInt(n)).value + rest);
        (back == Ok(Step(Int(n), refs, rest)) <==> n <= 0xfff_ffff) &&
        (n > 0xfff_ffff ==> back == Ok(Step(Int(n - U29_LIMIT), refs, rest)))
  {
    if n < U29_LIMIT {
      IntBack(strict, n, refs, rest);
      EmptyUnit(refs);
      hide Decode;
    }
  }

  lemma DoubleBack(strict: bool, bits: Amf0.Double, refs: Refs, rest: seq<byte>)
    ensures Back(strict, TDouble(bits), refs, rest)
  {
    EmptyUnit(refs);
    Marked(strict, refs, DOUBLE, bits, rest);
    Amf0Proofs.NumberBack(bits, rest);
    hide Amf0.DecodeNumber, Decode;
  }

  lemma StrBack(strict: bool, x: Wire, refs: Refs, rest: seq<byte>)
    requires Resolves(x, refs) && (!strict || rest != [])
    ensures Back(strict, TStr(x), refs, rest)
  {
    WireBack(strict, x, refs, rest);
    Marked(strict, refs, STRING, EncodeWire(x).value, rest);
    hide EncodeWire, DecodeText, Decode;
  }

  lemma BytesValueBack(strict: bool, bytes: seq<byte>, refs: Refs, rest: seq<byte>)
    requires |bytes| < 0x1000_0000 && (!strict || rest != [])
    ensures Back(strict, TBytes(bytes), refs, rest)
  {
    var t, h := TBytes(bytes), EncodeU29(InPlace(|bytes|));
    BytesBack(strict, bytes, rest);
    assert Encode(t) == Ok([BYTE_ARRAY as byte] + (h.value + bytes));
    assert Meaning(t, refs) == Bytes(bytes) && Inlined(t) == [];
    assert DecodeScalar(strict, refs, BYTE_ARRAY, h.value + bytes + rest) == Ok(Step(Bytes(bytes), refs, rest)) by {
      hide DecodeBytes, EncodeU29;
    }
    assert Back(strict, t, refs, rest) <==>
             Decode(strict, refs, Encode(t).value + rest) == Ok(Step(Meaning(t, refs), refs + Inlined(t), rest));
    hide *;
    EmptyUnit(refs);
    Marked(strict, refs, BYTE_ARRAY, h.value + bytes, rest);
  }

  lemma FlagBack(strict: bool, t: Tree, refs: Refs, rest: seq<byte>)
    requires t.TNull? || t.TUndefined? || t.TBool?
    ensures Back(strict, t, refs, rest)
  {
    EmptyUnit(refs);
    var m := Encode(t).value[0];
    Marked(strict, refs, m, [], rest);
  }

  lemma Marked(strict: bool, refs: Refs, m: byte, s: seq<byte>, rest: seq<byte>)
    ensures [m] + s + rest == [m] + (s + rest) && [] + rest == rest && [m] + [] == [m]
    ensures Decode(strict, refs, [m] + s + rest)
         == if m == ARRAY then DecodeArray(strict, refs, s + rest)
            else if m == OBJECT then DecodeObject(strict, refs, s + rest)
            else DecodeScalar(strict, refs, m, s + rest)
  {
    var all := [m] + s + rest;
    assert all[0] == m && all[1..] == s + rest;
  }

  /** A tree is read as its meaning, and its in-place strings enter the table in wire order. */
  lemma {:induction false} RoundTrip(strict: bool, t: Tree, refs: Refs, rest: seq<byte>)
    requires Fits(t, refs) && (!strict || rest != [])
    ensures Back(strict, t, refs, rest)
    decreases t, 1
  {
    hide Back, Fits;
    if t.TArr? { ArrayBack(strict, t, refs, rest); }
    else if t.TObj? { ObjectBack(strict, t, refs, rest); }
    else { ScalarBack(strict, t, refs, rest); }
  }

  lemma ScalarBack(strict: bool, t: Tree, refs: Refs, rest: seq<byte>)
    requires !t.TArr? && !t.TObj? && Fits(t, refs) && (!strict || rest != [])
    ensures Back(strict, t, refs, rest)
  {
    hide Back;
    match t
    case TInt(n) => IntBack(strict, n, refs, rest);
    case TDouble(bits) => DoubleBack(strict, bits, refs, rest);
    case TStr(x) => StrBack(strict, x, refs, rest);
    case TBytes(bytes) => BytesValueBack(strict, bytes, refs, rest);
    case _ => FlagBack(strict, t, refs, rest);
  }

  lemma ArraySteps(strict: bool, refs: Refs, s: seq<byte>, u: nat, s1: seq<byte>, r1: Refs, s2: seq<byte>,
        a: Step<seq<Value>>)
    requires DecodeU29(s) == Ok(Parsed(u, s1)) && u % 2 == 1
    requires DecodeText(strict, refs, s1) == Ok(Step([], r1, s2)) && DecodeItems(strict, r1, u / 2, s2, []) == Ok(a)
    ensures DecodeArray(strict, refs, s) == Ok(Step(Arr(a.val), a.refs, a.rest))
  {}

  lemma InPlaceCount(n: nat)
    requires n < 0x1000_0000
    ensures InPlace(n) < U29_LIMIT && InPlace(n) % 2 == 1 && InPlace(n) / 2 == n
  {}

  lemma TraitCount(n: nat, d: bool)
    requires n < 0x200_0000
    ensures var h := TraitHeader(n, d);
            h < U29_LIMIT && h % 4 == 3 && h / 4 % 2 == 0 && (h / 8 % 2 == 1 <==> d) && h / 16 == n
  {
    Small16(n);
    if d { DynamicParts(16 * n + 11, n); } else { SealedParts(16 * n + 3, n); }
  }

  lemma Small16(n: nat)
    requires n < 0x200_0000
    ensures n * 16 % 0x1_0000_0000 == 16 * n
  {}

  lemma DynamicParts(h: nat, n: nat)
    requires h == 16 * n + 11
    ensures h % 4 == 3 && h / 4 % 2 == 0 && h / 8 % 2 == 1 && h / 16 == n
  { assert h / 4 == 4 * n + 2 && h / 8 == 2 * n + 1; }

  lemma SealedParts(h: nat, n: nat)
    requires h == 16 * n + 3
    ensures h % 4 == 3 && h / 4 % 2 == 0 && h / 8 % 2 == 0 && h / 16 == n
  { assert h / 4 == 4 * n && h / 8 == 2 * n; }

  lemma {:induction false} ArrayBack(strict: bool, t: Tree, refs: Refs, rest: seq<byte>)
    requires t.TArr? && Fits(t, refs) && (!strict || rest != [])
    ensures Back(strict, t, refs, rest)
    decreases t, 0
  {
    var items := t.items;
    ItemsBack(strict, items, refs, rest, []);
    InPlaceCount(|items|);
    var h, k, body := EncodeU29(InPlace(|items|)).value, EncodeWire(Inline([])), EncodeItems(items).value;
    WireBack(strict, Inline([]), refs, body + rest);
    assert TextOf(Inline([]), refs) == [] && Adds(Inline([])) == [];
    assert Encode(t).Ok? && Encode(t).value == [ARRAY as byte] + (h + (k.value + body)) by {
      hide EncodeU29, EncodeWire, EncodeItems;
    }
    assert Meaning(t, refs) == Arr(Meanings(items, refs)) && Inlined(t) == InlinedAll(items);
    assert Back(strict, t, refs, rest) <==>
             Decode(strict, refs, Encode(t).value + rest) == Ok(Step(Meaning(t, refs), refs + Inlined(t), rest));
    hide *;
    EmptyUnit(refs);
    EmptyUnit(Meanings(items, refs));
    U29Back(InPlace(|items|), k.value + (body + rest));
    Assoc(k.value, body, rest);
    Assoc(h, k.value + body, rest);
    Marked(strict, refs, ARRAY, h + (k.value + body), rest);
    ArraySteps(strict, refs, h + (k.value + (body + rest)), InPlace(|items|), k.value + (body + rest), refs,
               body + rest, Step(Meanings(items, refs), refs + InlinedAll(items), rest));
  }

  lemma ObjectSteps(strict: bool, refs: Refs, s: seq<byte>, u: nat, s1: seq<byte>, cls: Step<Text>,
                    names: Step<seq<Text>>, sealed: Step<map<Text, Value>>, all: Step<map<Text, Value>>)
    requires DecodeU29(s) == Ok(Parsed(u, s1)) && u % 4 == 3 && u / 4 % 2 == 0
    requires DecodeText(strict, refs, s1) == Ok(cls) && DecodeNames(strict, cls.refs, u / 16, cls.rest, []) == Ok(names)
    requires DecodeSealed(strict, names.refs, names.val, names.rest, map[]) == Ok(sealed)
    requires if u / 8 % 2 == 1 then DecodeDynamic(strict, sealed.refs, sealed.rest, sealed.val) == Ok(all)
             else all == sealed
    ensures DecodeObject(strict, refs, s) == Ok(Step(Obj([], all.val), all.refs, all.rest))
  {}

  function Done(r: Result<seq<byte>>): seq<byte>
  { if r.Ok? then r.value else [] }

  /** The parts of an object on the wire, in order. */
  function Wires(t: Tree): seq<seq<byte>>
    requires t.TObj?
  {
    [Done(EncodeU29(TraitHeader(|t.names|, t.dynamic))), Done(EncodeWire(t.cls)), Done(EncodeWires(t.names)),
      Done(EncodeItems(t.values)),
     if t.dynamic then Done(EncodeExtra(t.keys, t.extra)) else []]
  }

  lemma Regroup(ws: seq<seq<byte>>, rest: seq<byte>)
    requires |ws| == 5
    ensures ws[0] + (ws[1] + (ws[2] + (ws[3] + ws[4]))) + rest == ws[0] + (ws[1] + (ws[2] + (ws[3] + (ws[4] + rest))))
  {
    var a, b, c, d, e := ws[0], ws[1], ws[2], ws[3], ws[4];
    Assoc(d, e, rest);
    Assoc(c, d + e, rest);
    Assoc(b, c + (d + e), rest);
    Assoc(a, b + (c + (d + e)), rest);
  }

  lemma RefsOf(t: Tree, refs: Refs)
    requires t.TObj?
    ensures var r3 := refs + Adds(t.cls) + AddsAll(t.names) + InlinedAll(t.values);
            refs + Inlined(t) == if t.dynamic then r3 + InlinedExtra(t.keys, t.extra) else r3
  {
    var a, b, c := Adds(t.cls), AddsAll(t.names), InlinedAll(t.values);
    var d := if t.dynamic then InlinedExtra(t.keys, t.extra) else [];
    assert Inlined(t) == a + (b + (c + d));
    hide *;
    Assoc(refs, a, b + (c + d));
    Assoc(refs + a, b, c + d);
    Assoc(refs + a + b, c, d);
    EmptyUnit(refs + a + b + c);
  }

  lemma ObjectEncodes(t: Tree)
    requires t.TObj? && EncodeU29(TraitHeader(|t.names|, t.dynamic)).Ok? && EncodeWire(t.cls).Ok?
             && EncodeWires(t.names).Ok?
    requires EncodeItems(t.values).Ok? && (t.dynamic ==> EncodeExtra(t.keys, t.extra).Ok?)
    ensures var ws := Wires(t); Encode(t) == Ok([OBJECT as byte] + (ws[0] + (ws[1] + (ws[2] + (ws[3] + ws[4])))))
  { hide EncodeU29, EncodeWire, EncodeWires, EncodeItems, EncodeExtra, TraitHeader; }

  lemma ObjectMeans(t: Tree, refs: Refs)
    requires t.TObj? && Fits(t, refs)
    ensures
      var r1 := refs + Adds(t.cls);
      var r2 := r1 + AddsAll(t.names);
      var r3 := r2 + InlinedAll(t.values);
      && |t.names| == |t.values| < 0x200_0000 && Resolves(t.cls, refs) && ResolvesAll(t.names, r1)
        && FitsAll(t.values, r2)
      && (t.dynamic ==> FitsExtra(t.keys, t.extra, r3))
      && var sealed := Sealed(Texts(t.names, r1), t.values, r2, map[]);
         Meaning(t, refs) == Obj([], if t.dynamic then Extended(t.keys, t.extra, r3, sealed) else sealed)
  { hide Resolves, ResolvesAll, FitsAll, FitsExtra, Sealed, Extended, Texts; }

  lemma {:induction false} ObjectBack(strict: bool, t: Tree, refs: Refs, rest: seq<byte>)
    requires t.TObj? && Fits(t, refs) && (!strict || rest != [])
    ensures Back(strict, t, refs, rest)
    decreases t, 0
  {
    ObjectMeans(t, refs);
    var r1 := refs + Adds(t.cls);
    var r2 := r1 + AddsAll(t.names);
    var r3 := r2 + InlinedAll(t.values);
    var names := Texts(t.names, r1);
    var sealed := Sealed(names, t.values, r2, map[]);
    var all :=
      if t.dynamic then Step(Extended(t.keys, t.extra, r3, sealed), r3 + InlinedExtra(t.keys, t.extra), rest)
      else Step(sealed, r3, rest);
    var ws := Wires(t);
    var tail := ws[4] + rest;
    var u := TraitHeader(|t.names|, t.dynamic);
    TraitCount(|t.names|, t.dynamic);
    EmptyUnit(rest);
    EmptyUnit(names);
    if t.dynamic { ExtraBack(strict, t.keys, t.extra, r3, rest, sealed); }
    assert t.dynamic ==> DecodeDynamic(strict, r3, tail, sealed) == Ok(all);
    assert !t.dynamic ==> tail == rest;
    assert !strict || tail != [];
    SealedBack(strict, names, t.values, r2, tail, map[]);
    NamesBack(strict, t.names, r1, ws[3] + tail, []);
    WireBack(strict, t.cls, refs, ws[2] + (ws[3] + tail));
    U29Back(u, ws[1] + (ws[2] + (ws[3] + tail)));
    ObjectEncodes(t);
    RefsOf(t, refs);
    assert Back(strict, t, refs, rest) <==>
             Decode(strict, refs, Encode(t).value + rest) == Ok(Step(Meaning(t, refs), refs + Inlined(t), rest));
    hide *;
    ObjectSteps(strict, refs, ws[0] + (ws[1] + (ws[2] + (ws[3] + tail))), u, ws[1] + (ws[2] + (ws[3] + tail)),
                Step(TextOf(t.cls, refs), r1, ws[2] + (ws[3] + tail)), Step(names, r2, ws[3] + tail),
                Step(sealed, r3, tail), all);
    Regroup(ws, rest);
    Marked(strict, refs, OBJECT, ws[0] + (ws[1] + (ws[2] + (ws[3] + ws[4]))), rest);
  }

  lemma {:induction false} ItemsBack(strict: bool, ts: seq<Tree>, refs: Refs, rest: seq<byte>, acc: seq<Value>)
    requires FitsAll(ts, refs) && (!strict || rest != [])
    ensures EncodeItems(ts).Ok?
    ensures DecodeItems(strict, refs, |ts|, EncodeItems(ts).value + rest, acc)
            == Ok(Step(acc + Meanings(ts, refs), refs + InlinedAll(ts), rest))
    decreases ts, 0
  {
    if ts == [] { EmptyUnit(rest); EmptyUnit(refs); EmptyUnit(acc); } else {
      ItemsBack(strict, ts[1..], refs + Inlined(ts[0]), rest, acc + [Meaning(ts[0], refs)]);
      var a, b := Encode(ts[0]), EncodeItems(ts[1..]);
      RoundTrip(strict, ts[0], refs, b.value + rest);
      Assoc(a.value, b.value, rest);
      Assoc(refs, Inlined(ts[0]), InlinedAll(ts[1..]));
      Assoc(acc, [Meaning(ts[0], refs)], Meanings(ts[1..], refs + Inlined(ts[0])));
    }
  }

  lemma {:induction false} SealedBack(strict: bool, names: seq<Text>, ts: seq<Tree>, refs: Refs, rest: seq<byte>,
        acc: map<Text, Value>)
    requires |names| == |ts| && FitsAll(ts, refs) && (!strict || rest != [])
    ensures EncodeItems(ts).Ok?
    ensures DecodeSealed(strict, refs, names, EncodeItems(ts).value + rest, acc)
            == Ok(Step(Sealed(names, ts, refs, acc), refs + InlinedAll(ts), rest))
    decreases ts, 0
  {
    if ts == [] { EmptyUnit(rest); EmptyUnit(refs); } else {
      SealedBack(strict, names[1..], ts[1..], refs + Inlined(ts[0]), rest, acc[names[0] := Meaning(ts[0], refs)]);
      var a, b := Encode(ts[0]), EncodeItems(ts[1..]);
      RoundTrip(strict, ts[0], refs, b.value + rest);
      Assoc(a.value, b.value, rest);
      Assoc(refs, Inlined(ts[0]), InlinedAll(ts[1..]));
    }
  }

  lemma {:induction false} ExtraBack(strict: bool, ks: seq<Wire>, ts: seq<Tree>, refs: Refs, rest: seq<byte>,
        acc: map<Text, Value>)
    requires FitsExtra(ks, ts, refs) && (!strict || rest != [])
    ensures EncodeExtra(ks, ts).Ok?
    ensures DecodeDynamic(strict, refs, EncodeExtra(ks, ts).value + rest, acc)
            == Ok(Step(Extended(ks, ts, refs, acc), refs + InlinedExtra(ks, ts), rest))
    decreases ts, 0
  {
    if ts == [] { WireBack(strict, Inline([]), refs, rest); } else {
      var r1 := refs + Adds(ks[0]);
      var acc' := acc[TextOf(ks[0], refs) := Meaning(ts[0], r1)];
      ExtraBack(strict, ks[1..], ts[1..], r1 + Inlined(ts[0]), rest, acc');
      var k, v, b := EncodeWire(ks[0]), Encode(ts[0]), EncodeExtra(ks[1..], ts[1..]);
      RoundTrip(strict, ts[0], r1, b.value + rest);
      WireBack(strict, ks[0], refs, v.value + (b.value + rest));
      Assoc(v.value, b.value, rest);
      Assoc(k.value, v.value + b.value, rest);
      Assoc(r1, Inlined(ts[0]), InlinedExtra(ks[1..], ts[1..]));
      Assoc(refs, Adds(ks[0]), Inlined(ts[0]) + InlinedExtra(ks[1..], ts[1..]));
    }
  }

  // ---- references are transparent ----

  /** The same tree with every string in place. */
  function Flat(t: Tree, refs: Refs): Tree
    requires Fits(t, refs)
    decreases t, 0
  {
    match t
    case TStr(x) => TStr(Inline(TextOf(x, refs)))
    case TArr(items) => TArr(FlatAll(items, refs))
    case TObj(cls, names, values, dynamic, keys, extra) =>
      var r2 := refs + Adds(cls) + AddsAll(names);
      TObj(Inline(TextOf(cls, refs)), InPlaceAll(Texts(names, refs + Adds(cls))), FlatAll(values, r2), dynamic,
           if dynamic then InPlaceAll(Keys(keys, extra, r2 + InlinedAll(values))) else [],
           if dynamic then FlatExtra(keys, extra, r2 + InlinedAll(values)) else [])
    case _ => t
  }

  function InPlaceAll(xs: seq<Text>): (r: seq<Wire>)
    ensures |r| == |xs|
  { if xs == [] then [] else [Inline(xs[0])] + InPlaceAll(xs[1..]) }

  function FlatAll(ts: seq<Tree>, refs: Refs): (r: seq<Tree>)
    requires FitsAll(ts, refs)
    ensures |r| == |ts|
  { if ts == [] then [] else [Flat(ts[0], refs)] + FlatAll(ts[1..], refs + Inlined(ts[0])) }

  function Keys(ks: seq<Wire>, ts: seq<Tree>, refs: Refs): (r: seq<Text>)
    requires FitsExtra(ks, ts, refs)
    ensures |r| == |ks|
    decreases ts
  { if ks == [] then [] else [TextOf(ks[0], refs)] + Keys(ks[1..], ts[1..], refs + Adds(ks[0]) + Inlined(ts[0])) }

  function FlatExtra(ks: seq<Wire>, ts: seq<Tree>, refs: Refs): (r: seq<Tree>)
    requires FitsExtra(ks, ts, refs)
    ensures |r| == |ts|
    decreases ts
  {
    if ts == [] then [] else
      [Flat(ts[0], refs + Adds(ks[0]))] + FlatExtra(ks[1..], ts[1..], refs + Adds(ks[0]) + Inlined(ts[0]))
  }

  /** Every string in the table could have been sent in place. */
  predicate Sendable(refs: Refs)
  { forall i | 0 <= i < |refs| :: |refs[i]| < 0x1000_0000 }

  lemma SendableAdds(refs: Refs, x: Wire)
    requires Sendable(refs) && Resolves(x, refs)
    ensures Sendable(refs + Adds(x)) && |TextOf(x, refs)| < 0x1000_0000
  {}

  lemma {:induction false} SendableNames(refs: Refs, xs: seq<Wire>)
    requires Sendable(refs) && ResolvesAll(xs, refs)
    ensures Sendable(refs + AddsAll(xs))
    decreases xs
  {
    EmptyUnit(refs);
    if xs != [] {
      SendableAdds(refs, xs[0]);
      SendableNames(refs + Adds(xs[0]), xs[1..]);
      Assoc(refs, Adds(xs[0]), AddsAll(xs[1..]));
    }
  }

  lemma {:induction false} FlatNames(xs: seq<Wire>, refs: Refs, other: Refs)
    requires Sendable(refs) && ResolvesAll(xs, refs)
    ensures ResolvesAll(InPlaceAll(Texts(xs, refs)), other)
    ensures Texts(InPlaceAll(Texts(xs, refs)), other) == Texts(xs, refs)
  {
    if xs != [] {
      var x, texts := TextOf(xs[0], refs), Texts(xs[1..], refs + Adds(xs[0]));
      SendableAdds(refs, xs[0]);
      FlatNames(xs[1..], refs + Adds(xs[0]), other + Adds(Inline(x)));
      assert Texts(xs, refs)[1..] == texts && InPlaceAll(Texts(xs, refs))[1..] == InPlaceAll(texts);
    }
  }

  /** Behind any other table, the flat tree means the same. */
  lemma {:induction false} FlatMeans(t: Tree, refs: Refs, other: Refs)
    requires Sendable(refs) && Fits(t, refs)
    ensures Fits(Flat(t, refs), other) && Meaning(Flat(t, refs), other) == Meaning(t, refs)
            && Sendable(refs + Inlined(t))
    decreases t, 1
  {
    match t
    case TStr(x) => SendableAdds(refs, x);
    case TArr(items) => FlatAllMeans(items, refs, other);
    case TObj(_, _, _, _, _, _) => FlatObjectMeans(t, refs, other);
    case _ => EmptyUnit(refs);
  }

  lemma {:induction false} FlatObjectMeans(t: Tree, refs: Refs, other: Refs)
    requires Sendable(refs) && t.TObj? && Fits(t, refs)
    ensures Fits(Flat(t, refs), other) && Meaning(Flat(t, refs), other) == Meaning(t, refs)
            && Sendable(refs + Inlined(t))
    decreases t, 0
  {
    ObjectMeans(t, refs);
    var r1 := refs + Adds(t.cls);
    var r2 := r1 + AddsAll(t.names);
    var r3 := r2 + InlinedAll(t.values);
    var f := Flat(t, refs);
    var names := Texts(t.names, r1);
    var o1 := other + Adds(f.cls);
    var o2 := o1 + AddsAll(f.names);
    var o3 := o2 + InlinedAll(f.values);
    FlatParts(t, refs);
    SendableAdds(refs, t.cls);
    SendableNames(r1, t.names);
    RefsOf(t, refs);
    FlatNames(t.names, r1, o1);
    FlatAllMeans(t.values, r2, o2);
    FlatSealed(names, t.values, r2, o2, map[]);
    var sealed := Sealed(names, t.values, r2, map[]);
    if t.dynamic { FlatExtended(t.keys, t.extra, r3, o3, sealed); }
    FitsFrom(f, other);
    hide *;
    ObjectMeans(f, other);
  }

  lemma FlatParts(t: Tree, refs: Refs)
    requires t.TObj? && Fits(t, refs)
    ensures
      var r1 := refs + Adds(t.cls);
      var r2 := r1 + AddsAll(t.names);
      var f := Flat(t, refs);
      && f.TObj? && f.cls == Inline(TextOf(t.cls, refs)) && f.names == InPlaceAll(Texts(t.names, r1))
        && f.values == FlatAll(t.values, r2)
      && f.dynamic == t.dynamic && |f.names| == |t.names| && |f.values| == |t.values|
      && (t.dynamic ==> f.keys == InPlaceAll(Keys(t.keys, t.extra, r2 + InlinedAll(t.values))))
      && (t.dynamic ==> f.extra == FlatExtra(t.keys, t.extra, r2 + InlinedAll(t.values)))
  {}

  lemma FitsFrom(t: Tree, refs: Refs)
    requires t.TObj?
    ensures
      var r1 := refs + Adds(t.cls);
      var r2 := r1 + AddsAll(t.names);
      (|t.names| == |t.values| < 0x200_0000 && Resolves(t.cls, refs) && ResolvesAll(t.names, r1)
        && FitsAll(t.values, r2)
       && (t.dynamic ==> FitsExtra(t.keys, t.extra, r2 + InlinedAll(t.values)))) ==> Fits(t, refs)
  {}

  lemma {:induction false} FlatAllMeans(ts: seq<Tree>, refs: Refs, other: Refs)
    requires Sendable(refs) && FitsAll(ts, refs)
    ensures FitsAll(FlatAll(ts, refs), other) && Meanings(FlatAll(ts, refs), other) == Meanings(ts, refs)
            && Sendable(refs + InlinedAll(ts))
    decreases ts, 0
  {
    EmptyUnit(refs);
    if ts != [] {
      var a, r1 := Flat(ts[0], refs), refs + Inlined(ts[0]);
      FlatMeans(ts[0], refs, other);
      FlatAllMeans(ts[1..], r1, other + Inlined(a));
      assert FlatAll(ts, refs)[1..] == FlatAll(ts[1..], r1);
      Assoc(refs, Inlined(ts[0]), InlinedAll(ts[1..]));
    }
  }

  lemma {:induction false} FlatSealed(names: seq<Text>, ts: seq<Tree>, refs: Refs, other: Refs, acc: map<Text, Value>)
    requires |names| == |ts| && Sendable(refs) && FitsAll(ts, refs)
    ensures FitsAll(FlatAll(ts, refs), other)
    ensures Sealed(names, FlatAll(ts, refs), other, acc) == Sealed(names, ts, refs, acc)
    decreases ts, 0
  {
    if ts != [] {
      var a, r1 := Flat(ts[0], refs), refs + Inlined(ts[0]);
      FlatMeans(ts[0], refs, other);
      FlatSealed(names[1..], ts[1..], r1, other + Inlined(a), acc[names[0] := Meaning(ts[0], refs)]);
      assert FlatAll(ts, refs)[1..] == FlatAll(ts[1..], r1);
    }
  }

  lemma {:induction false} FlatExtended(ks: seq<Wire>, ts: seq<Tree>, refs: Refs, other: Refs, acc: map<Text, Value>)
    requires Sendable(refs) && FitsExtra(ks, ts, refs)
    ensures FitsExtra(InPlaceAll(Keys(ks, ts, refs)), FlatExtra(ks, ts, refs), other)
    ensures Extended(InPlaceAll(Keys(ks, ts, refs)), FlatExtra(ks, ts, refs), other, acc) == Extended(ks, ts, refs, acc)
    ensures Sendable(refs + InlinedExtra(ks, ts))
    decreases ts, 0
  {
    EmptyUnit(refs);
    if ts != [] {
      var k, r1 := TextOf(ks[0], refs), refs + Adds(ks[0]);
      var other1 := other + Adds(Inline(k));
      SendableAdds(refs, ks[0]);
      FlatMeans(ts[0], r1, other1);
      var a := Flat(ts[0], r1);
      FlatExtended(ks[1..], ts[1..], r1 + Inlined(ts[0]), other1 + Inlined(a), acc[k := Meaning(ts[0], r1)]);
      assert FlatExtra(ks, ts, refs)[1..] == FlatExtra(ks[1..], ts[1..], r1 + Inlined(ts[0]));
      assert Keys(ks, ts, refs)[1..] == Keys(ks[1..], ts[1..], r1 + Inlined(ts[0]));
      assert InPlaceAll(Keys(ks, ts, refs))[1..] == InPlaceAll(Keys(ks, ts, refs)[1..]);
      Assoc(r1, Inlined(ts[0]), InlinedExtra(ks[1..], ts[1..]));
      Assoc(refs, Adds(ks[0]), Inlined(ts[0]) + InlinedExtra(ks[1..], ts[1..]));
    }
  }

  /** No string of the tree is a reference. */
  predicate AllInline(t: Tree)
  {
    match t
    case TStr(x) => x.Inline?
    case TArr(items) => forall i | 0 <= i < |items| :: AllInline(items[i])
    case TObj(cls, names, values, _, keys, extra) =>
      && cls.Inline? && (forall i | 0 <= i < |names| :: names[i].Inline?)
        && (forall i | 0 <= i < |keys| :: keys[i].Inline?)
      && (forall i | 0 <= i < |values| :: AllInline(values[i])) && (forall i | 0 <= i < |extra| :: AllInline(extra[i]))
    case _ => true
  }

  lemma {:induction false} InPlaceAllInline(xs: seq<Text>)
    ensures forall i | 0 <= i < |xs| :: InPlaceAll(xs)[i].Inline?
  { if xs != [] { InPlaceAllInline(xs[1..]); } }

  lemma {:induction false} FlatInline(t: Tree, refs: Refs)
    requires Fits(t, refs)
    ensures AllInline(Flat(t, refs))
    decreases t, 1
  {
    match t
    case TArr(items) => FlatAllInline(items, refs);
    case TObj(cls, names, values, dynamic, keys, extra) =>
      var r2 := refs + Adds(cls) + AddsAll(names);
      InPlaceAllInline(Texts(names, refs + Adds(cls)));
      FlatAllInline(values, r2);
      if dynamic {
        InPlaceAllInline(Keys(keys, extra, r2 + InlinedAll(values)));
        FlatExtraInline(keys, extra, r2 + InlinedAll(values));
      }
    case _ =>
  }

  lemma {:induction false} FlatAllInline(ts: seq<Tree>, refs: Refs)
    requires FitsAll(ts, refs)
    ensures forall i | 0 <= i < |ts| :: AllInline(FlatAll(ts, refs)[i])
    decreases ts, 0
  {
    if ts != [] {
      FlatInline(ts[0], refs);
      FlatAllInline(ts[1..], refs + Inlined(ts[0]));
    }
  }

  lemma {:induction false} FlatExtraInline(ks: seq<Wire>, ts: seq<Tree>, refs: Refs)
    requires FitsExtra(ks, ts, refs)
    ensures forall i | 0 <= i < |ts| :: AllInline(FlatExtra(ks, ts, refs)[i])
    decreases ts, 0
  {
    if ts != [] {
      FlatInline(ts[0], refs + Adds(ks[0]));
      FlatExtraInline(ks[1..], ts[1..], refs + Adds(ks[0]) + Inlined(ts[0]));
    }
  }

  /**
   Whichever strings are sent as references to equal earlier ones, a decoder reads the value that it
   would read with every string in place, and takes up exactly the in-place strings in wire order.
   */
  lemma ReferencesTransparent(strict: bool, t: Tree, refs: Refs, other: Refs, rest: seq<byte>)
    requires Sendable(refs) && Fits(t, refs) && (!strict || rest != [])
    ensures
      var flat := Flat(t, refs);
      && AllInline(flat) && Encode(t).Ok? && Encode(flat).Ok?
      && Decode(strict, refs, Encode(t).value + rest) == Ok(Step(Meaning(t, refs), refs + Inlined(t), rest))
      && Decode(strict, other, Encode(flat).value + rest) == Ok(Step(Meaning(t, refs), other + Inlined(flat), rest))
  {
    FlatInline(t, refs);
    FlatMeans(t, refs, other);
    RoundTrip(strict, t, refs, rest);
    RoundTrip(strict, Flat(t, refs), other, rest);
    hide Fits, Meaning, Encode, Decode, Flat, AllInline, Inlined;
  }
}
